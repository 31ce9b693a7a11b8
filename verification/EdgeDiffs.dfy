/**
  When does an incremental run leave the import graph of a full rebuild? The answer is read
  off the diff: what it adds and deletes, against the candidates of the imports of the
  files it does not mention.
 */
module EdgeDiffs {
  import opened Common
  import opened Walker
  import opened NameStatus
  import opened Index
  import opened Imports
  import opened ImportCandidates
  import opened IndexHistory
  import opened IndexEdges

  // ------------------------------------------------------------------
  // What a diff does to a list of candidates
  // ------------------------------------------------------------------

  /** The diff deletes p for good. */
  ghost predicate Gone(cs: seq<Change>, p: Path) { Touches(cs, p) && !Reads(cs, |cs|, p) }

  /** The diff brings p into the tree. */
  ghost predicate Appears(before: Tree, cs: seq<Change>, p: Path) { Reads(cs, |cs|, p) && p !in before }

  /** The file exists once the diff is applied. */
  ghost predicate Remains(cfg: Config, before: World, cs: seq<Change>, file: Path) {
    var p := Relative(cfg.root, file);
    if file in before.fs then p.Some? ==> !Gone(cs, p.value) else p.Some? && Appears(before.tree, cs, p.value)
  }

  /** Of these candidates the first one that remains is the target, or none remains and there is no target. */
  ghost predicate StillMeans(cfg: Config, before: World, cs: seq<Change>, candidates: seq<Path>, target: Option<Path>) {
    || (exists k :: 0 <= k < |candidates| && FirstToRemain(cfg, before, cs, candidates, k)
                    && Relative(cfg.root, candidates[k]) == target)
    || (target.None? && forall k :: 0 <= k < |candidates| ==> !Remains(cfg, before, cs, candidates[k]))
  }

  ghost predicate FirstToRemain(cfg: Config, before: World, cs: seq<Change>, candidates: seq<Path>, k: nat)
    requires k < |candidates|
  {
    Remains(cfg, before, cs, candidates[k]) && forall j :: 0 <= j < k ==> !Remains(cfg, before, cs, candidates[j])
  }

  /**
    The diff deletes the file the import means now, the first candidate that exists, or it
    adds an earlier candidate (any candidate, when none exists).
   */
  ghost predicate Disturbs(cfg: Config, before: World, cs: seq<Change>, candidates: seq<Path>) {
    exists k :: 0 <= k < |candidates| && Strikes(cfg, before, cs, candidates, k)
  }

  ghost predicate Strikes(cfg: Config, before: World, cs: seq<Change>, candidates: seq<Path>, k: nat)
    requires k < |candidates|
  {
    && (forall j :: 0 <= j < k ==> candidates[j] !in before.fs)
    && Relative(cfg.root, candidates[k]).Some?
    && var p := Relative(cfg.root, candidates[k]).value;
       if candidates[k] in before.fs then Gone(cs, p) else Appears(before.tree, cs, p)
  }

  /** The machine's other files are as before. */
  ghost predicate SameOutside(cfg: Config, a: World, b: World) {
    forall q :: !(cfg.root <= q) ==> (q in a.fs <==> q in b.fs)
  }

  /** Two worlds one incremental run apart. */
  ghost predicate OneDiffApart(cfg: Config, a: World, b: World, cs: seq<Change>) {
    && WellFormedWorld(cfg, a) && WellFormedWorld(cfg, b)
    && Faithful(a.tree, b.tree, cs) && SameOutside(cfg, a, b)
  }

  /** Which files come and go is what the diff says. */
  lemma ComesOrGoes(cfg: Config, a: World, b: World, cs: seq<Change>, file: Path)
    requires WellFormedWorld(cfg, a) && WellFormedWorld(cfg, b)
    requires Faithful(a.tree, b.tree, cs) && SameOutside(cfg, a, b)
    ensures (file in a.fs) != (file in b.fs)
       <==> Relative(cfg.root, file).Some?
            && var p := Relative(cfg.root, file).value;
               if file in a.fs then Gone(cs, p) else Appears(a.tree, cs, p)
  {
    if cfg.root <= file {
      var p := file[|cfg.root|..];
      assert cfg.root + p == file;
      if Reads(cs, |cs|, p) {
        assert Touches(cs, p);
      }
    }
  }

  /** The target of an edge, from the file its import means. */
  function TargetOf(cfg: Config, file: Option<Path>): Option<Path> {
    if file.None? then None else Relative(cfg.root, file.value)
  }

  lemma {:induction false} FirstIndex(fs: set<Path>, candidates: seq<Path>) returns (k: nat)
    requires FirstExisting(fs, candidates).Some?
    ensures k < |candidates| && FirstExisting(fs, candidates) == Some(candidates[k])
    ensures candidates[k] in fs && forall j :: 0 <= j < k ==> candidates[j] !in fs
  {
    if candidates[0] in fs {
      k := 0;
    } else {
      k := FirstIndex(fs, candidates[1..]);
      k := k + 1;
    }
  }

  /** The diff tells what an import means after it. */
  lemma StillMeansIs(cfg: Config, a: World, b: World, cs: seq<Change>, candidates: seq<Path>, target: Option<Path>)
    requires OneDiffApart(cfg, a, b, cs)
    ensures StillMeans(cfg, a, cs, candidates, target) <==> TargetOf(cfg, FirstExisting(b.fs, candidates)) == target
  {
    hide Gone, Appears, WellFormedWorld, Faithful, SameOutside, FirstExisting, Remains;
    forall c ensures Remains(cfg, a, cs, c) <==> c in b.fs {
      RemainsIs(cfg, a, b, cs, c);
    }
    if FirstExisting(b.fs, candidates).Some? {
      var k := FirstIndex(b.fs, candidates);
      assert FirstToRemain(cfg, a, cs, candidates, k);
      assert forall l :: 0 <= l < |candidates| && FirstToRemain(cfg, a, cs, candidates, l) ==> l == k;
    } else {
      NoneExists(b.fs, candidates);
    }
  }

  lemma NoneExists(fs: set<Path>, candidates: seq<Path>)
    requires FirstExisting(fs, candidates).None?
    ensures forall k :: 0 <= k < |candidates| ==> candidates[k] !in fs
  {}

  lemma RemainsIs(cfg: Config, a: World, b: World, cs: seq<Change>, file: Path)
    requires OneDiffApart(cfg, a, b, cs)
    ensures Remains(cfg, a, cs, file) <==> file in b.fs
  {
    hide Gone, Appears, WellFormedWorld, Faithful;
    ComesOrGoes(cfg, a, b, cs, file);
  }

  lemma {:induction false} TargetStaysExactlyWhen(cfg: Config, a: World, b: World, cs: seq<Change>,
                                                  candidates: seq<Path>)
    requires WellFormedWorld(cfg, a) && WellFormedWorld(cfg, b)
    requires Faithful(a.tree, b.tree, cs) && SameOutside(cfg, a, b)
    ensures TargetOf(cfg, FirstExisting(a.fs, candidates)) == TargetOf(cfg, FirstExisting(b.fs, candidates))
       <==> !Disturbs(cfg, a, cs, candidates)
  {
    hide Gone, Appears, WellFormedWorld, Faithful, SameOutside;
    if |candidates| > 0 {
      var c, rest := candidates[0], candidates[1..];
      ComesOrGoes(cfg, a, b, cs, c);
      TargetStaysExactlyWhen(cfg, a, b, cs, rest);
      FirstStrike(cfg, a, cs, candidates);
      if (c in a.fs) != (c in b.fs) {
        OnlyOneNames(cfg, c, FirstExisting(a.fs, candidates), FirstExisting(b.fs, candidates));
      }
    }
  }

  lemma FirstStrike(cfg: Config, a: World, cs: seq<Change>, candidates: seq<Path>)
    requires |candidates| > 0
    ensures Disturbs(cfg, a, cs, candidates)
       <==> Strikes(cfg, a, cs, candidates, 0) || (candidates[0] !in a.fs && Disturbs(cfg, a, cs, candidates[1..]))
  {
    hide Gone, Appears;
    var rest := candidates[1..];
    forall k | 0 <= k < |rest| && candidates[0] !in a.fs
      ensures Strikes(cfg, a, cs, candidates, k + 1) <==> Strikes(cfg, a, cs, rest, k)
    {
      assert forall j :: 0 <= j < k ==> rest[j] == candidates[j + 1];
      assert forall j :: 0 < j < k + 1 ==> candidates[j] == rest[j - 1];
    }
    if k :| 0 <= k < |candidates| && Strikes(cfg, a, cs, candidates, k) {
      if k > 0 {
        assert candidates[0] !in a.fs && Strikes(cfg, a, cs, rest, k - 1);
      }
    }
    if candidates[0] !in a.fs && Disturbs(cfg, a, cs, rest) {
      var k :| 0 <= k < |rest| && Strikes(cfg, a, cs, rest, k);
      assert Strikes(cfg, a, cs, candidates, k + 1);
    }
  }

  /** A file of the repository that only one of two imports means makes their targets differ. */
  lemma OnlyOneNames(cfg: Config, c: Path, x: Option<Path>, y: Option<Path>)
    requires cfg.root <= c && (x == Some(c)) != (y == Some(c))
    ensures TargetOf(cfg, x) != TargetOf(cfg, y)
  {
    assert cfg.root + c[|cfg.root|..] == c;
    if x.Some? && cfg.root <= x.value {
      assert cfg.root + x.value[|cfg.root|..] == x.value;
    }
    if y.Some? && cfg.root <= y.value {
      assert cfg.root + y.value[|cfg.root|..] == y.value;
    }
  }

  // ------------------------------------------------------------------
  // One row
  // ------------------------------------------------------------------

  function CandidatesIn(cfg: Config, w: World, p: Path, row: Row, raw: string): seq<Path>
    requires CanDiscover(cfg, w)
  {
    CandidatesOf(raw, cfg.root + p, cfg.root, row.language, Roots(cfg, w))
  }

  /** The target of an import's edge: the file it means in this world, below the root. */
  function TargetNow(cfg: Config, w: World, p: Path, row: Row, raw: string): Option<Path>
    requires CanDiscover(cfg, w)
  {
    TargetOf(cfg, FirstExisting(w.fs, CandidatesIn(cfg, w, p, row, raw)))
  }

  /** Under the package roots of `after`, every import of this row still means its present target, as the diff shows. */
  ghost predicate Keeps(cfg: Config, before: World, after: World, cs: seq<Change>, p: Path, row: Row)
    requires CanDiscover(cfg, before) && CanDiscover(cfg, after)
  {
    forall n :: 0 <= n < |row.structure.imports| && row.structure.imports[n] != "" ==>
      var raw := row.structure.imports[n];
      StillMeans(cfg, before, cs, CandidatesIn(cfg, after, p, row, raw), TargetNow(cfg, before, p, row, raw))
  }

  /** The diff leaves every import of this row as it is. */
  ghost predicate Undisturbed(cfg: Config, before: World, cs: seq<Change>, p: Path, row: Row)
    requires CanDiscover(cfg, before)
  {
    forall n :: 0 <= n < |row.structure.imports| && row.structure.imports[n] != "" ==>
      !Disturbs(cfg, before, cs, CandidatesIn(cfg, before, p, row, row.structure.imports[n]))
  }

  lemma EdgeStaysExactlyWhen(cfg: Config, a: World, b: World, cs: seq<Change>, p: Path, row: Row, raw: string)
    requires OneDiffApart(cfg, a, b, cs)
    ensures EdgeFor(cfg, a, Roots(cfg, a), Coded(p, row), raw) == EdgeFor(cfg, b, Roots(cfg, b), Coded(p, row), raw)
       <==> StillMeans(cfg, a, cs, CandidatesIn(cfg, b, p, row, raw), TargetNow(cfg, a, p, row, raw))
  {
    hide Resolve, CandidatesOf, Roots, FirstExisting, Faithful, StillMeans, SameOutside;
    ResolveIsTheFirst(a.fs, raw, cfg.root + p, cfg.root, row.language, Roots(cfg, a));
    ResolveIsTheFirst(b.fs, raw, cfg.root + p, cfg.root, row.language, Roots(cfg, b));
    StillMeansIs(cfg, a, b, cs, CandidatesIn(cfg, b, p, row, raw), TargetNow(cfg, a, p, row, raw));
  }

  /** With the same package roots, an import keeps its target exactly when the diff does not disturb it. */
  lemma StableRootsKeep(cfg: Config, a: World, b: World, cs: seq<Change>, p: Path, row: Row)
    requires OneDiffApart(cfg, a, b, cs) && Roots(cfg, a) == Roots(cfg, b)
    ensures Keeps(cfg, a, b, cs, p, row) <==> Undisturbed(cfg, a, cs, p, row)
  {
    hide CandidatesOf, Roots, FirstExisting, Faithful, StillMeans, Disturbs, SameOutside;
    forall raw
      ensures StillMeans(cfg, a, cs, CandidatesIn(cfg, b, p, row, raw), TargetNow(cfg, a, p, row, raw))
         <==> !Disturbs(cfg, a, cs, CandidatesIn(cfg, a, p, row, raw))
    {
      StillMeansIs(cfg, a, b, cs, CandidatesIn(cfg, b, p, row, raw), TargetNow(cfg, a, p, row, raw));
      TargetStaysExactlyWhen(cfg, a, b, cs, CandidatesIn(cfg, a, p, row, raw));
    }
  }

  /** A row has one edge per non-blank import, and all edges of one import are the same. */
  lemma {:induction false} EdgesOfImports(cfg: Config, w: World, roots: seq<Path>, c: Coded, n: nat, e: Edge)
    requires n <= |c.row.structure.imports|
    ensures e in RowEdges(cfg, w, roots, c, n)
       <==> exists k :: 0 <= k < n && c.row.structure.imports[k] != ""
              && e == EdgeFor(cfg, w, roots, c, c.row.structure.imports[k])
  {
    hide EdgeFor;
    if n > 0 {
      EdgesOfImports(cfg, w, roots, c, n - 1, e);
    }
  }

  lemma {:induction false} SameEdgeByEdge(cfg: Config, a: World, b: World, rootsA: seq<Path>, rootsB: seq<Path>,
                                          c: Coded, n: nat)
    requires n <= |c.row.structure.imports|
    requires forall k :: 0 <= k < n && c.row.structure.imports[k] != "" ==>
               EdgeFor(cfg, a, rootsA, c, c.row.structure.imports[k])
                 == EdgeFor(cfg, b, rootsB, c, c.row.structure.imports[k])
    ensures RowEdges(cfg, a, rootsA, c, n) == RowEdges(cfg, b, rootsB, c, n)
  {
    hide EdgeFor;
    if n > 0 {
      SameEdgeByEdge(cfg, a, b, rootsA, rootsB, c, n - 1);
    }
  }

  lemma EdgeNamesItsImport(cfg: Config, w: World, roots: seq<Path>, c: Coded, raw: string)
    ensures EdgeFor(cfg, w, roots, c, raw).raw == raw
  {
    hide Resolve;
  }

  /** The edges of a row stay, as a multiset, exactly when all its imports keep their targets. */
  lemma RowStaysExactlyWhen(cfg: Config, a: World, b: World, cs: seq<Change>, p: Path, row: Row)
    requires OneDiffApart(cfg, a, b, cs)
    ensures ResolvesAlike(cfg, a, b, p, row) <==> Keeps(cfg, a, b, cs, p, row)
  {
    hide EdgeFor, RowEdges, Roots, CandidatesIn, TargetNow, StillMeans, Faithful, SameOutside;
    var c, n := Coded(p, row), |row.structure.imports|;
    forall raw
      ensures EdgeFor(cfg, a, Roots(cfg, a), c, raw) == EdgeFor(cfg, b, Roots(cfg, b), c, raw)
         <==> StillMeans(cfg, a, cs, CandidatesIn(cfg, b, p, row, raw), TargetNow(cfg, a, p, row, raw))
    {
      EdgeStaysExactlyWhen(cfg, a, b, cs, p, row, raw);
    }
    if Keeps(cfg, a, b, cs, p, row) {
      SameEdgeByEdge(cfg, a, b, Roots(cfg, a), Roots(cfg, b), c, n);
    } else {
      var k :| 0 <= k < n && row.structure.imports[k] != ""
               && !StillMeans(cfg, a, cs, CandidatesIn(cfg, b, p, row, row.structure.imports[k]),
                              TargetNow(cfg, a, p, row, row.structure.imports[k]));
      ImportMissing(cfg, a, b, Roots(cfg, a), Roots(cfg, b), c, k);
    }
  }

  lemma ImportMissing(cfg: Config, a: World, b: World, rootsA: seq<Path>, rootsB: seq<Path>, c: Coded, k: nat)
    requires k < |c.row.structure.imports| && c.row.structure.imports[k] != ""
    requires EdgeFor(cfg, a, rootsA, c, c.row.structure.imports[k])
          != EdgeFor(cfg, b, rootsB, c, c.row.structure.imports[k])
    ensures multiset(OutEdges(cfg, a, rootsA, c)) != multiset(OutEdges(cfg, b, rootsB, c))
  {
    hide EdgeFor, RowEdges;
    var n, e := |c.row.structure.imports|, EdgeFor(cfg, a, rootsA, c, c.row.structure.imports[k]);
    EdgesOfImports(cfg, a, rootsA, c, n, e);
    EdgesOfImports(cfg, b, rootsB, c, n, e);
    forall l | 0 <= l < n
      ensures EdgeFor(cfg, b, rootsB, c, c.row.structure.imports[l]).raw == c.row.structure.imports[l]
    {
      EdgeNamesItsImport(cfg, b, rootsB, c, c.row.structure.imports[l]);
    }
    EdgeNamesItsImport(cfg, a, rootsA, c, c.row.structure.imports[k]);
    assert e in multiset(OutEdges(cfg, a, rootsA, c)) && e !in multiset(OutEdges(cfg, b, rootsB, c));
  }

  // ------------------------------------------------------------------
  // One incremental run
  // ------------------------------------------------------------------

  ghost predicate SmallChanges(cs: seq<Change>, tree: Tree) {
    forall i :: 0 <= i < |cs| && cs[i].path in tree ==> tree[cs[i].path].size <= MAX_FILE_SIZE
  }

  /** Every import of every file the diff does not mention keeps its target, as the diff shows. */
  ghost predicate LeavesImports(cfg: Config, tables: Tables, before: World, after: World, cs: seq<Change>)
    requires CanDiscover(cfg, before) && CanDiscover(cfg, after)
  {
    forall p :: p in tables.rows && !Touches(cs, p) ==> Keeps(cfg, before, after, cs, p, tables.rows[p])
  }

  /** The same in terms of what the diff deletes and adds. */
  ghost predicate DisturbsNone(cfg: Config, tables: Tables, before: World, cs: seq<Change>)
    requires CanDiscover(cfg, before)
  {
    forall p :: p in tables.rows && !Touches(cs, p) ==> Undisturbed(cfg, before, cs, p, tables.rows[p])
  }

  /** Tables that agree with a full rebuild were built in that world throughout. */
  lemma AgreeingEdges(cfg: Config, tables: Tables, a: World)
    requires WellFormedWorld(cfg, a) && Agrees(cfg, tables, a)
    ensures RowsOf(cfg, tables.rows, a.tree, {})
    ensures EdgesAsBuilt(cfg, tables, map p | p in tables.rows :: a)
  {
    hide Outgoing, Roots, FullIndex, RowsOf, WellFormedWorld, IsRowOf, WalkTakes;
    assert CanDiscover(cfg, a) by { WellFormedDiscovers(cfg, a); }
    var full := FullIndex(cfg, a, None);
    FullIndexRows(cfg, a, None);
    AgreeingRows(cfg, tables.rows, full.rows, a.tree);
    var built := map p | p in tables.rows :: a;
    forall e: Edge ensures multiset(tables.edges)[e] == EdgesWanted(cfg, built, tables.rows, e) {
      FullEdgeCounts(cfg, a, None, e);
      SameButShaOutgoing(cfg, a, Roots(cfg, a), tables.rows, full.rows, e);
      NoRowNoEdge(cfg, a, Roots(cfg, a), tables.rows);
    }
    MakeEdgesAsBuilt(cfg, tables, built);
  }

  /** Rows that agree with a full rebuild still do after one run, and edges that are as built decide the rest. */
  lemma RowsStillAgree(cfg: Config, tables: Tables, a: World, b: World, cs: seq<Change>, head: Option<string>)
    requires OneDiffApart(cfg, a, b, cs) && Agrees(cfg, tables, a) && SmallChanges(cs, b.tree)
    ensures CanDiscover(cfg, b)
    ensures IncrementalIndex(cfg, tables, b, cs, head) == Success(Updated(cfg, tables, b, cs, head))
    ensures var after := Updated(cfg, tables, b, cs, head);
            && Forget(after.rows) == Forget(FullIndex(cfg, b, None).rows)
            && EdgesAsBuilt(cfg, after, Rebuilt(map p | p in tables.rows :: a, after.rows, cs, b))
  {
    hide FullIndex, Roots, RowsOf, EdgesAsBuilt, Faithful, SameOutside, IsRowOf, WalkTakes,
         IncrementalIndex, Reread, Admits;
    AgreeingEdges(cfg, tables, a);
    IncrementalRows(cfg, tables.rows, a.tree, b, {}, cs, head);
    IncrementalIsUpdated(cfg, tables, b, cs, head);
    UpdatedEdges(cfg, tables, map p | p in tables.rows :: a, a.tree, {}, b, cs, head);
    FullIndexRows(cfg, b, None);
    SmallReread(cfg, cs, b.tree);
    RowsAgree(cfg, Updated(cfg, tables, b, cs, head).rows, FullIndex(cfg, b, None).rows, b.tree,
              {} - TouchedPaths(cs) + ReadPaths(cs), None);
  }

  /** Where the row of one path was last read. */
  lemma ReadOrKept(cfg: Config, tables: Tables, a: World, b: World, cs: seq<Change>, head: Option<string>, p: Path)
    requires OneDiffApart(cfg, a, b, cs) && Agrees(cfg, tables, a)
    ensures CanDiscover(cfg, b)
    ensures var after := Updated(cfg, tables, b, cs, head);
            var built := Rebuilt(map q | q in tables.rows :: a, after.rows, cs, b);
            && built.Keys == after.rows.Keys
            && (p in tables.rows && !Touches(cs, p) ==>
                  p in after.rows && built[p] == a && after.rows[p] == tables.rows[p])
            && (p in after.rows && !(p in tables.rows && !Touches(cs, p)) ==> built[p] == b)
  {
    hide FullIndex, Roots, RowsOf, EdgesAsBuilt, SameOutside, IsRowOf, Reread, Admits, AddRows;
    AgreeingEdges(cfg, tables, a);
    IncrementalRows(cfg, tables.rows, a.tree, b, {}, cs, head);
    SourceFacts(cfg, tables.rows, a.tree, {}, b, cs, head, p);
    KeptAreUntouched(cfg, tables.rows, a.tree, b.tree, {}, cs, p);
    RebuiltAt(map q | q in tables.rows :: a, Updated(cfg, tables, b, cs, head).rows, cs, b, p);
  }

  /**
    One incremental run, from tables that agree with a full rebuild, with every file the
    diff mentions within the size limit: the result agrees with a full rebuild, rows and
    edges, if and only if for every import of every file the diff does not mention, the
    first candidate under the new package roots that the diff leaves or brings is the
    import's present target.
   */
  lemma EdgesAgreeExactlyWhen(cfg: Config, tables: Tables, a: World, b: World, cs: seq<Change>, head: Option<string>)
    requires OneDiffApart(cfg, a, b, cs) && Agrees(cfg, tables, a) && SmallChanges(cs, b.tree)
    ensures CanDiscover(cfg, b) && IncrementalIndex(cfg, tables, b, cs, head).Success?
    ensures Agrees(cfg, IncrementalIndex(cfg, tables, b, cs, head).value, b) <==> LeavesImports(cfg, tables, a, b, cs)
  {
    hide FullIndex, Roots, Faithful, SameOutside, Keeps, ResolvesAlike, IncrementalIndex, Updated, Outgoing,
         WellFormedWorld, Touches;
    assert CanDiscover(cfg, a) by { WellFormedDiscovers(cfg, a); }
    RowsStillAgree(cfg, tables, a, b, cs, head);
    var after := Updated(cfg, tables, b, cs, head);
    var built := Rebuilt(map p | p in tables.rows :: a, after.rows, cs, b);
    CountAsBuilt(cfg, after, built, Edge([], None, "", ""));
    FullDecides(cfg, after, built, b);
    forall p | p in after.rows
      ensures ResolvesAlike(cfg, built[p], b, p, after.rows[p])
         <==> (p in tables.rows && !Touches(cs, p) ==> Keeps(cfg, a, b, cs, p, tables.rows[p]))
    {
      ReadOrKept(cfg, tables, a, b, cs, head, p);
      RowStaysExactlyWhen(cfg, a, b, cs, p, after.rows[p]);
      AlikeItself(cfg, b, p, after.rows[p]);
    }
    forall p | p in tables.rows && !Touches(cs, p) ensures p in after.rows {
      ReadOrKept(cfg, tables, a, b, cs, head, p);
    }
  }

  /**
    With the package roots unchanged: if and only if the diff neither deletes the present
    target of such an import nor adds an earlier candidate.
   */
  lemma EdgesAgreeOnStableRoots(cfg: Config, tables: Tables, a: World, b: World, cs: seq<Change>, head: Option<string>)
    requires OneDiffApart(cfg, a, b, cs) && Agrees(cfg, tables, a) && SmallChanges(cs, b.tree)
    requires Roots(cfg, a) == Roots(cfg, b)
    ensures CanDiscover(cfg, b) && IncrementalIndex(cfg, tables, b, cs, head).Success?
    ensures Agrees(cfg, IncrementalIndex(cfg, tables, b, cs, head).value, b) <==> DisturbsNone(cfg, tables, a, cs)
  {
    hide FullIndex, Roots, Faithful, SameOutside, LeavesImports, DisturbsNone, IncrementalIndex, WellFormedWorld;
    EdgesAgreeExactlyWhen(cfg, tables, a, b, cs, head);
    LeavesMeansUndisturbed(cfg, tables, a, b, cs);
  }

  // ------------------------------------------------------------------
  // Diffs that keep the package roots
  // ------------------------------------------------------------------

  lemma {:induction false} SameTopPackage(x: set<Path>, y: set<Path>, dir: Path)
    requires [INIT] !in x && [INIT] !in y
    requires forall d: Path :: d + [INIT] in x <==> d + [INIT] in y
    ensures TopPackage(x, dir) == TopPackage(y, dir)
    decreases |dir|
  {
    if Parent(dir) + [INIT] in x {
      assert |dir| > 0 by { assert [] + [INIT] == [INIT]; }
      SameTopPackage(x, y, Parent(dir));
    }
  }

  lemma {:induction false} SameRootsUpTo(x: set<Path>, y: set<Path>, repo: Path, inits: seq<Path>, n: nat)
    requires [INIT] !in x && [INIT] !in y && n <= |inits|
    requires forall d: Path :: d + [INIT] in x <==> d + [INIT] in y
    requires forall i :: 0 <= i < |inits| ==> repo <= inits[i]
    ensures RootsUpTo(x, repo, inits, n) == RootsUpTo(y, repo, inits, n)
  {
    hide TopPackage, Excluded;
    if n > 0 {
      SameRootsUpTo(x, y, repo, inits, n - 1);
      SameTopPackage(x, y, Parent(inits[n - 1]));
    }
  }

  /** A diff that mentions no `__init__.py` keeps the package roots, if the walk meets those files as before. */
  lemma RootsStay(cfg: Config, a: World, b: World, cs: seq<Change>)
    requires OneDiffApart(cfg, a, b, cs) && a.inits == b.inits && Name(cfg.root) != INIT
    requires forall i :: 0 <= i < |cs| ==> Name(cs[i].path) != INIT
    ensures CanDiscover(cfg, a) && CanDiscover(cfg, b) && Roots(cfg, a) == Roots(cfg, b)
  {
    hide Faithful, SameOutside, Gone, Appears;
    forall d: Path ensures d + [INIT] in a.fs <==> d + [INIT] in b.fs {
      ComesOrGoes(cfg, a, b, cs, d + [INIT]);
      var p := Relative(cfg.root, d + [INIT]);
      if p.Some? {
        assert cfg.root + p.value == d + [INIT];
        assert p.value != [] by { assert cfg.root + [] == cfg.root; }
        assert p.value[|p.value| - 1] == (cfg.root + p.value)[|cfg.root + p.value| - 1] == INIT;
        NamedInit(a, cs, p.value);
      }
    }
    SameRootsUpTo(a.fs, b.fs, cfg.root, a.inits, |a.inits|);
  }

  lemma NamedInit(a: World, cs: seq<Change>, p: Path)
    requires p != [] && p[|p| - 1] == INIT && forall i :: 0 <= i < |cs| ==> Name(cs[i].path) != INIT
    ensures !Gone(cs, p) && !Appears(a.tree, cs, p)
  {}

  lemma AlikeItself(cfg: Config, w: World, p: Path, row: Row)
    requires CanDiscover(cfg, w)
    ensures ResolvesAlike(cfg, w, w, p, row)
  {}

  lemma FullDecides(cfg: Config, after: Tables, built: map<Path, World>, b: World)
    requires WellFormedWorld(cfg, b) && CanDiscover(cfg, b) && EdgesAsBuilt(cfg, after, built)
    requires forall p :: p in built ==> CanDiscover(cfg, built[p])
    requires Forget(after.rows) == Forget(FullIndex(cfg, b, None).rows)
    ensures built.Keys == after.rows.Keys
    ensures Agrees(cfg, after, b) <==> forall p :: p in after.rows ==> ResolvesAlike(cfg, built[p], b, p, after.rows[p])
  {
    hide FullIndex, Roots, Outgoing, ResolvesAlike, WellFormedWorld, Forget;
    var full := FullIndex(cfg, b, None);
    forall e: Edge ensures multiset(full.edges)[e] == Outgoing(cfg, b, Roots(cfg, b), after.rows, e) {
      FullEdgeCounts(cfg, b, None, e);
      SameButShaOutgoing(cfg, b, Roots(cfg, b), after.rows, full.rows, e);
    }
    EdgeCountsDecide(cfg, after, built, b, full);
  }

  // ------------------------------------------------------------------
  // Diffs that only modify files
  // ------------------------------------------------------------------

  ghost predicate OnlyModifies(cs: seq<Change>) {
    forall i :: 0 <= i < |cs| ==> cs[i].status == Modified
  }

  /** The files outside the repository, and the order of the directory walk, are as before. */
  ghost predicate SameSurroundings(cfg: Config, a: World, b: World) {
    && (forall q :: !(cfg.root <= q) ==> (q in a.fs <==> q in b.fs))
    && a.inits == b.inits
  }

  lemma ModifyingKeepsTheFileSet(cfg: Config, a: World, b: World, cs: seq<Change>)
    requires WellFormedWorld(cfg, a) && WellFormedWorld(cfg, b)
    requires Faithful(a.tree, b.tree, cs) && OnlyModifies(cs) && SameSurroundings(cfg, a, b)
    ensures a.fs == b.fs && Roots(cfg, a) == Roots(cfg, b)
  {
    forall p ensures p in a.tree <==> p in b.tree {
      if i :| 0 <= i < |cs| && cs[i].path == p {
        assert Reads(cs, |cs|, p);
      }
    }
    forall q ensures q in a.fs <==> q in b.fs {
      if cfg.root <= q {
        assert cfg.root + q[|cfg.root|..] == q;
      }
    }
  }

  /** A diff that only modifies files brings none and takes none. */
  lemma ModifyingDisturbsNothing(cfg: Config, a: World, b: World, cs: seq<Change>, candidates: seq<Path>)
    requires Faithful(a.tree, b.tree, cs) && OnlyModifies(cs)
    ensures !Disturbs(cfg, a, cs, candidates)
  {
    forall p ensures !Gone(cs, p) && !Appears(a.tree, cs, p) {
      if i :| 0 <= i < |cs| && cs[i].path == p {
        assert Reads(cs, |cs|, p);
      }
    }
  }

  /**
    When a diff only modifies files, and none it mentions is over the size limit, an
    incremental run turns tables that agree with a full rebuild before into tables that
    agree, rows and edges, with a full rebuild after.
   */
  lemma ModifyingKeepsAgreement(cfg: Config, tables: Tables, a: World, b: World, cs: seq<Change>, head: Option<string>)
    requires WellFormedWorld(cfg, a) && WellFormedWorld(cfg, b) && Agrees(cfg, tables, a)
    requires Faithful(a.tree, b.tree, cs) && OnlyModifies(cs) && SameSurroundings(cfg, a, b) && SmallChanges(cs, b.tree)
    ensures var r := IncrementalIndex(cfg, tables, b, cs, head); r.Success? && Agrees(cfg, r.value, b)
  {
    hide FullIndex, Roots, IncrementalIndex, Disturbs, OnlyModifies;
    assert CanDiscover(cfg, a) && CanDiscover(cfg, b);
    ModifyingKeepsTheFileSet(cfg, a, b, cs);
    EdgesAgreeOnStableRoots(cfg, tables, a, b, cs, head);
    forall candidates ensures !Disturbs(cfg, a, cs, candidates) {
      ModifyingDisturbsNothing(cfg, a, b, cs, candidates);
    }
  }

  // ------------------------------------------------------------------
  // Histories
  // ------------------------------------------------------------------

  /** Between any two runs the machine's other files stay, and the diffs that are used stay within the size limit. */
  ghost predicate CalmHistory(cfg: Config, visits: seq<Visit>)
    requires forall k :: 0 <= k < |visits| ==> WellFormedWorld(cfg, visits[k].world)
  {
    && (forall k :: 0 < k < |visits| ==> SameOutside(cfg, visits[k - 1].world, visits[k].world))
    && (forall k :: 0 < k < |visits| ==> SmallChanges(DiffAt(cfg, visits, k), visits[k].world.tree))
  }

  /** The diff run n works on: none, if it starts over or finds HEAD where it was. */
  ghost function DiffAt(cfg: Config, visits: seq<Visit>, n: nat): seq<Change>
    requires n < |visits| && forall k :: 0 <= k < |visits| ==> WellFormedWorld(cfg, visits[k].world)
  {
    if ModeOf(After(cfg, visits, n), visits[n]) == IncrementalMode then visits[n].diff.value else []
  }

  /** The tables after the first n runs. */
  ghost function After(cfg: Config, visits: seq<Visit>, n: nat): Tables
    requires n <= |visits| && forall k :: 0 <= k < |visits| ==> WellFormedWorld(cfg, visits[k].world)
  {
    assert forall k :: 0 <= k < n ==> visits[..n][k] == visits[k] && WellFormedWorld(cfg, visits[k].world);
    match RunHistory(cfg, visits[..n])
    case None => EMPTY.tables
    case Some(acc) => acc.tables
  }

  ghost predicate AgreesAfter(cfg: Config, visits: seq<Visit>, n: nat)
    requires 0 < n <= |visits| && forall k :: 0 <= k < |visits| ==> WellFormedWorld(cfg, visits[k].world)
  {
    Agrees(cfg, After(cfg, visits, n), visits[n - 1].world)
  }

  /** Run n starts over, or leaves the imports of the files its diff does not mention. */
  ghost predicate LeavesAt(cfg: Config, visits: seq<Visit>, n: nat)
    requires 0 < n < |visits| && forall k :: 0 <= k < |visits| ==> WellFormedWorld(cfg, visits[k].world)
  {
    ModeOf(After(cfg, visits, n), visits[n]) != FullMode ==>
      LeavesImports(cfg, After(cfg, visits, n), visits[n - 1].world, visits[n].world, DiffAt(cfg, visits, n))
  }

  lemma FullAgrees(cfg: Config, w: World, head: Option<string>)
    requires WellFormedWorld(cfg, w)
    ensures Agrees(cfg, FullIndex(cfg, w, head), w)
  {
    hide Outgoing, Roots, FullIndex, WalkTakes, Indexable;
    assert CanDiscover(cfg, w) by { WellFormedDiscovers(cfg, w); }
    var mine, full := FullIndex(cfg, w, head), FullIndex(cfg, w, None);
    FullIndexRows(cfg, w, head);
    FullIndexRows(cfg, w, None);
    forall p | p in mine.rows ensures mine.rows[p].(sha := None) == full.rows[p].(sha := None) {}
    assert Forget(mine.rows) == Forget(full.rows);
    forall e: Edge ensures multiset(mine.edges)[e] == multiset(full.edges)[e] {
      FullEdgeCounts(cfg, w, head, e);
      FullEdgeCounts(cfg, w, None, e);
      SameButShaOutgoing(cfg, w, Roots(cfg, w), mine.rows, full.rows, e);
    }
  }

  /** A run on an empty diff changes neither rows nor edges. */
  lemma EmptyDiff(cfg: Config, tables: Tables, w: World, head: Option<string>)
    requires CanDiscover(cfg, w)
    ensures IncrementalIndex(cfg, tables, w, [], head) == Success(Tables(head, tables.rows, tables.edges))
  {
    assert tables.edges + [] == tables.edges;
  }

  /** A run that finds HEAD where it was changes nothing; a full rebuild could still resolve imports anew. */
  lemma NoopAgrees(cfg: Config, tables: Tables, a: World, b: World)
    requires WellFormedWorld(cfg, a) && WellFormedWorld(cfg, b) && a.tree == b.tree
    requires SameOutside(cfg, a, b) && Agrees(cfg, tables, a)
    ensures CanDiscover(cfg, b) && (Agrees(cfg, tables, b) <==> LeavesImports(cfg, tables, a, b, []))
  {
    hide FullIndex, Roots, SameOutside, IncrementalIndex, LeavesImports, WellFormedWorld;
    NothingChanged(a.tree);
    EdgesAgreeExactlyWhen(cfg, tables, a, b, [], tables.head);
    EmptyDiff(cfg, tables, b, tables.head);
  }

  lemma NothingChanged(tree: Tree)
    ensures Faithful(tree, tree, [])
  {}

  /** What run n does to agreement. */
  lemma OneMoreRun(cfg: Config, commits: map<string, Tree>, visits: seq<Visit>, n: nat)
    requires GoodHistory(cfg, commits, visits) && CalmHistory(cfg, visits) && n < |visits|
    requires n > 0 ==> AgreesAfter(cfg, visits, n)
    ensures AgreesAfter(cfg, visits, n + 1) <==> (n > 0 ==> LeavesAt(cfg, visits, n))
  {
    hide FullIndex, Roots, SameOutside, IncrementalIndex, Agrees, LeavesImports, WellFormedWorld, Inv, Faithful,
         SmallChanges;
    var v := visits[n];
    HistoryGrows(cfg, commits, visits, n);
    assert n > 0 ==>
      SameOutside(cfg, visits[n - 1].world, v.world) && SmallChanges(DiffAt(cfg, visits, n), v.world.tree);
    var tables := After(cfg, visits, n);
    match ModeOf(tables, v) {
      case FullMode => FullAgrees(cfg, v.world, v.head);
      case IncrementalMode =>
        EdgesAgreeExactlyWhen(cfg, tables, visits[n - 1].world, v.world, v.diff.value, v.head);
      case NoopMode =>
        NoopAgrees(cfg, tables, visits[n - 1].world, v.world);
    }
  }

  /** The n-th run starts from the tables of a good history, and makes the next ones. */
  lemma HistoryGrows(cfg: Config, commits: map<string, Tree>, visits: seq<Visit>, n: nat)
    requires GoodHistory(cfg, commits, visits) && n < |visits|
    ensures CanDiscover(cfg, visits[n].world)
    ensures var tables := After(cfg, visits, n);
            && IndexRepository(cfg, tables, visits[n]) == Success(After(cfg, visits, n + 1))
            && (n == 0 ==> ModeOf(tables, visits[n]) == FullMode)
            && (n > 0 && ModeOf(tables, visits[n]) == IncrementalMode ==>
                  Faithful(visits[n - 1].world.tree, visits[n].world.tree, visits[n].diff.value))
            && (n > 0 && ModeOf(tables, visits[n]) == NoopMode ==> visits[n - 1].world.tree == visits[n].world.tree)
  {
    hide IndexRepository, Faithful, WellFormedWorld, RowsOf, ShasTell, EdgesAsBuilt;
    forall k | 0 <= k < |visits| ensures CanDiscover(cfg, visits[k].world) {
      WellFormedDiscovers(cfg, visits[k].world);
    }
    GoodPrefix(cfg, commits, visits, n);
    GoodPrefix(cfg, commits, visits, n + 1);
    assert visits[..n + 1][..n] == visits[..n] && visits[..n + 1][n] == visits[n];
    if n > 0 {
      EveryHistory(cfg, commits, visits[..n]);
    }
    EveryHistory(cfg, commits, visits[..n + 1]);
  }

  lemma GoodPrefix(cfg: Config, commits: map<string, Tree>, visits: seq<Visit>, n: nat)
    requires GoodHistory(cfg, commits, visits) && n <= |visits|
    ensures GoodHistory(cfg, commits, visits[..n])
  {
    hide GoodVisit, WellFormedWorld;
    forall k | 0 <= k < n ensures visits[..n][..k] == visits[..k] {}
  }

  /**
    Over any history of full, forced, incremental, no-op and fallback runs on faithful
    diffs: the tables agree with a full rebuild after every run if and only if in every run
    that does not start over, each import of each file its diff does not mention keeps its
    target, as the diff and the package roots of the run show.
   */
  lemma AgreementLastsExactlyWhen(cfg: Config, commits: map<string, Tree>, visits: seq<Visit>)
    requires |visits| > 0 && GoodHistory(cfg, commits, visits) && CalmHistory(cfg, visits)
    ensures (forall n :: 0 < n <= |visits| ==> AgreesAfter(cfg, visits, n))
       <==> (forall n :: 0 < n < |visits| ==> LeavesAt(cfg, visits, n))
  {
    hide AgreesAfter, LeavesAt, WellFormedWorld, GoodVisit;
    if forall n :: 0 < n < |visits| ==> LeavesAt(cfg, visits, n) {
      AgreementLasts(cfg, commits, visits, |visits|);
    }
    if forall n :: 0 < n <= |visits| ==> AgreesAfter(cfg, visits, n) {
      forall n | 0 < n < |visits| ensures LeavesAt(cfg, visits, n) {
        assert AgreesAfter(cfg, visits, n + 1);
        OneMoreRun(cfg, commits, visits, n);
      }
    }
  }

  lemma {:induction false} AgreementLasts(cfg: Config, commits: map<string, Tree>, visits: seq<Visit>, n: nat)
    requires 0 < n <= |visits| && GoodHistory(cfg, commits, visits) && CalmHistory(cfg, visits)
    requires forall k :: 0 < k < |visits| ==> LeavesAt(cfg, visits, k)
    ensures forall k :: 0 < k <= n ==> AgreesAfter(cfg, visits, k)
  {
    hide AgreesAfter, LeavesAt, WellFormedWorld, GoodVisit;
    if n > 1 {
      AgreementLasts(cfg, commits, visits, n - 1);
    }
    OneMoreRun(cfg, commits, visits, n - 1);
  }

  /** Run n is not incremental, or its diff disturbs no import of a file it does not mention. */
  ghost predicate DisturbsNoneAt(cfg: Config, visits: seq<Visit>, n: nat)
    requires 0 < n < |visits| && forall k :: 0 <= k < |visits| ==> WellFormedWorld(cfg, visits[k].world)
  {
    ModeOf(After(cfg, visits, n), visits[n]) == IncrementalMode ==>
      DisturbsNone(cfg, After(cfg, visits, n), visits[n - 1].world, visits[n].diff.value)
  }

  /**
    With the package roots unchanged throughout: if and only if no incremental run's diff
    deletes the present target, or adds an earlier candidate, of such an import.
   */
  lemma AgreementLastsOnStableRoots(cfg: Config, commits: map<string, Tree>, visits: seq<Visit>)
    requires |visits| > 0 && GoodHistory(cfg, commits, visits) && CalmHistory(cfg, visits)
    requires forall k :: 0 < k < |visits| ==> Roots(cfg, visits[k - 1].world) == Roots(cfg, visits[k].world)
    ensures (forall n :: 0 < n <= |visits| ==> AgreesAfter(cfg, visits, n))
       <==> (forall n :: 0 < n < |visits| ==> DisturbsNoneAt(cfg, visits, n))
  {
    hide AgreesAfter, LeavesAt, DisturbsNoneAt, WellFormedWorld, GoodVisit, Roots;
    AgreementLastsExactlyWhen(cfg, commits, visits);
    forall n | 0 < n < |visits| ensures LeavesAt(cfg, visits, n) <==> DisturbsNoneAt(cfg, visits, n) {
      LeavesOnStableRoots(cfg, commits, visits, n);
    }
  }

  lemma LeavesOnStableRoots(cfg: Config, commits: map<string, Tree>, visits: seq<Visit>, n: nat)
    requires GoodHistory(cfg, commits, visits) && CalmHistory(cfg, visits) && 0 < n < |visits|
    requires Roots(cfg, visits[n - 1].world) == Roots(cfg, visits[n].world)
    ensures LeavesAt(cfg, visits, n) <==> DisturbsNoneAt(cfg, visits, n)
  {
    hide Roots, Faithful, SameOutside, LeavesImports, DisturbsNone, WellFormedWorld;
    HistoryGrows(cfg, commits, visits, n);
    var a, b, cs, tables := visits[n - 1].world, visits[n].world, DiffAt(cfg, visits, n), After(cfg, visits, n);
    assert SameOutside(cfg, a, b);
    if ModeOf(tables, visits[n]) != FullMode {
      NothingChanged(a.tree);
      assert OneDiffApart(cfg, a, b, cs);
      LeavesMeansUndisturbed(cfg, tables, a, b, cs);
      EmptyDisturbsNothing(cfg, a, tables);
    }
  }

  lemma LeavesMeansUndisturbed(cfg: Config, tables: Tables, a: World, b: World, cs: seq<Change>)
    requires OneDiffApart(cfg, a, b, cs) && Roots(cfg, a) == Roots(cfg, b)
    ensures CanDiscover(cfg, a) && CanDiscover(cfg, b)
    ensures LeavesImports(cfg, tables, a, b, cs) <==> DisturbsNone(cfg, tables, a, cs)
  {
    hide Roots, Faithful, SameOutside, Keeps, Undisturbed, WellFormedWorld, Touches;
    WellFormedDiscovers(cfg, a);
    WellFormedDiscovers(cfg, b);
    forall p | p in tables.rows
      ensures Keeps(cfg, a, b, cs, p, tables.rows[p]) <==> Undisturbed(cfg, a, cs, p, tables.rows[p])
    {
      StableRootsKeep(cfg, a, b, cs, p, tables.rows[p]);
    }
  }

  lemma EmptyDisturbsNothing(cfg: Config, a: World, tables: Tables)
    requires WellFormedWorld(cfg, a)
    ensures CanDiscover(cfg, a) && DisturbsNone(cfg, tables, a, [])
  {
    hide Roots, CandidatesOf;
  }
}
