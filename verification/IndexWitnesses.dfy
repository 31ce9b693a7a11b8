/**
  Two repositories on which incremental indexing and a full rebuild part ways: a file is
  added that an untouched file imports, and a file grows past the size limit.
 */
module IndexWitnesses {
  import opened Common
  import opened Text
  import opened Walker
  import opened NameStatus
  import opened Index
  import opened Imports
  import opened IndexHistory
  import opened IndexEdges
  import opened EdgeDiffs
  import IndexFilter

  // ------------------------------------------------------------------
  // Adding a file leaves a stale edge
  // ------------------------------------------------------------------

  const ROOT: Path := ["repo"]
  const IMPORTER: Path := ["a.py"]
  const ADDED: Path := ["b.py"]

  /** "import b", of which nothing but the resolution matters. */
  ghost predicate ImportsB(cfg: Config, text: string) {
    cfg.root == ROOT && !cfg.includeTests
    && cfg.parse(text, "python").imports == ["import b"]
  }

  function WorldBefore(text: string): World {
    World(map[IMPORTER := Blob(8, Some(text))], [IMPORTER], {ROOT + IMPORTER}, [])
  }

  function WorldAfter(text: string): World {
    World(map[IMPORTER := Blob(8, Some(text)), ADDED := Blob(0, Some(""))], [IMPORTER, ADDED],
          {ROOT + IMPORTER, ROOT + ADDED}, [])
  }

  lemma UnderRoot(fs: set<Path>)
    ensures FindUnder(fs, "b", ROOT)
         == if ROOT + ["b.py"] in fs then Some(ROOT + ["b.py"])
            else if ROOT + ["b", INIT] in fs then Some(ROOT + ["b", INIT]) else None
  {
    SplitWhole("b", '.');
    var parts := Split("b", '.');
    assert parts == ["b"] && parts[..0] == [] && DivAll(ROOT, parts[..0]) == ROOT;
    assert "b" + ".py" == "b.py";
    assert Div(ROOT, "b") + [INIT] == ROOT + ["b", INIT];
  }

  lemma ImportOfB(fs: set<Path>)
    ensures ResolvePython(fs, "import b", ROOT + IMPORTER, [ROOT])
         == if ROOT + ["b.py"] in fs then Some(ROOT + ["b.py"])
            else if ROOT + ["b", INIT] in fs then Some(ROOT + ["b", INIT]) else None
  {
    var raw := "import b";
    assert Strip(raw) == raw && RStripChar(raw, ';') == raw;
    assert raw[..7] == "import " && raw[7..] == "b" && raw[0] == 'i';
    SplitWhole("b", ',');
    assert Strip("b") == "b";
    assert !(" as " <= "b") && !(" as " <= "") && "b"[1..] == "";
    assert Before("", " as ") == None;
    assert Before("b", " as ") == None;
    UnderRoot(fs);
    assert [ROOT][1..] == [] && FindInRoots(fs, "b", []) == None;
    assert FindInRoots(fs, "b", [ROOT]) == FindUnder(fs, "b", ROOT);
    assert PlainImport(fs, "b", [ROOT]) == FindInRoots(fs, "b", [ROOT]);
  }

  lemma ImporterIsPython()
    ensures Indexable(IMPORTER, false) == Some("python")
  {
    var name := "a.py";
    IndexFilter.LastDotIs(name, 1);
    assert name[1..] == ".py";
    NotSkipped(name);
  }

  /** No skipped suffix is as short as "a.py" and ends like it. */
  lemma NotSkipped(name: string)
    requires |name| == 4 && name[3] == 'y'
    ensures forall i :: 0 <= i < |SKIP_SUFFIXES| ==> !EndsWith(name, SKIP_SUFFIXES[i])
  {
    assert forall i :: 0 <= i < |SKIP_SUFFIXES| ==> |SKIP_SUFFIXES[i]| > 4 || SKIP_SUFFIXES[i] == ".pyi";
    assert name[0..] == name && ".pyi"[3] == 'i';
  }

  lemma WitnessWorlds(cfg: Config, text: string)
    requires cfg.root == ROOT
    ensures WellFormedWorld(cfg, WorldBefore(text)) && WellFormedWorld(cfg, WorldAfter(text))
    ensures Roots(cfg, WorldBefore(text)) == [ROOT] == Roots(cfg, WorldAfter(text))
  {
    forall w: World | w == WorldBefore(text) || w == WorldAfter(text) ensures WellFormedWorld(cfg, w) {
      assert [INIT] != ROOT + IMPORTER && [INIT] != ROOT + ADDED by { assert |[INIT]| == 1; }
      forall p ensures p in w.tree <==> ROOT + p in w.fs {
        assert (ROOT + p)[1..] == p && (ROOT + IMPORTER)[1..] == IMPORTER && (ROOT + ADDED)[1..] == ADDED;
      }
      assert IMPORTER[0] != ADDED[0];
    }
    assert [] + [ROOT] == [ROOT];
  }

  lemma WitnessEdges(cfg: Config, w: World, row: Row)
    requires cfg.root == ROOT && row.language == "python" && row.structure.imports == ["import b"]
    requires ROOT + ["b", INIT] !in w.fs
    ensures OutEdges(cfg, w, [ROOT], Coded(IMPORTER, row))
         == [Edge(IMPORTER, if ROOT + ADDED in w.fs then Some(ADDED) else None, "import b", "python")]
  {
    ImportOfB(w.fs);
    var c := Coded(IMPORTER, row);
    assert (ROOT + ADDED)[1..] == ADDED;
    assert RowEdges(cfg, w, [ROOT], c, 0) == [];
    assert RowEdges(cfg, w, [ROOT], c, 1) == [] + [EdgeFor(cfg, w, [ROOT], c, "import b")];
  }

  /**
    A file that imports b is indexed; then b.py is added and nothing else changes. The
    incremental run keeps the unresolved edge, a full rebuild resolves it.
   */
  lemma AddedFileLeavesAStaleEdge(cfg: Config, text: string)
    requires ImportsB(cfg, text)
    ensures var tables := FullIndex(cfg, WorldBefore(text), Some("c1"));
            var cs := [Change(ADDED, Added)];
            var stale := Edge(IMPORTER, None, "import b", "python");
            && CanDiscover(cfg, WorldBefore(text)) && CanDiscover(cfg, WorldAfter(text))
            && Faithful(WorldBefore(text).tree, WorldAfter(text).tree, cs)
            && var r := IncrementalIndex(cfg, tables, WorldAfter(text), cs, Some("c2"));
               r.Success? && stale in multiset(r.value.edges)
               && stale !in multiset(FullIndex(cfg, WorldAfter(text), Some("c2")).edges)
  {
    var a, b, cs := WorldBefore(text), WorldAfter(text), [Change(ADDED, Added)];
    var stale := Edge(IMPORTER, None, "import b", "python");
    WitnessWorlds(cfg, text);
    ImporterIsPython();
    WitnessDiff(text);
    FullIndexRows(cfg, a, Some("c1"));
    FullIndexRows(cfg, b, Some("c2"));
    var tables, full := FullIndex(cfg, a, Some("c1")), FullIndex(cfg, b, Some("c2"));
    FullEdgeCounts(cfg, a, Some("c1"), stale);
    FullEdgeCounts(cfg, b, Some("c2"), stale);
    WitnessCounts(cfg, text, tables.rows, a, Some("c1"), stale);
    WitnessCounts(cfg, text, full.rows, b, Some("c2"), stale);
    RowsOfFull(cfg, tables.rows, a.tree, Some("c1"));
    IncrementalRows(cfg, tables.rows, a.tree, b, {}, cs, Some("c2"));
    FaithfulReadsOnce(a.tree, b.tree, cs);
    WellFormedDiscovers(cfg, b);
    IncrementalIsUpdated(cfg, tables, b, cs, Some("c2"));
    WitnessUntouched();
    UntouchedEdgesStay(cfg, tables, b, cs, Some("c2"), stale);
  }

  lemma FaithfulReadsOnce(before: Tree, after: Tree, cs: seq<Change>)
    requires Faithful(before, after, cs)
    ensures ReadOnce(cs)
  {}

  lemma WitnessUntouched()
    ensures !Touches([Change(ADDED, Added)], IMPORTER)
  {
    assert ADDED[0] != IMPORTER[0];
  }

  lemma WitnessDiff(text: string)
    ensures Faithful(WorldBefore(text).tree, WorldAfter(text).tree, [Change(ADDED, Added)])
  {
    var cs := [Change(ADDED, Added)];
    assert ADDED[0] != IMPORTER[0];
    forall p ensures Touches(cs, p) <==> p == ADDED {
      if p == ADDED { assert cs[0].path == p; }
    }
    assert Reads(cs, |cs|, ADDED) by { assert cs[0].path == ADDED; }
  }

  lemma RowsOfFull(cfg: Config, rows: map<Path, Row>, tree: Tree, head: Option<string>)
    requires forall p :: p in rows <==> WalkTakes(cfg, tree, p)
    requires forall p :: p in rows ==> IsRowOf(cfg, tree, p, rows[p], head)
    ensures RowsOf(cfg, rows, tree, {})
  {
    hide Indexable;
    forall p | p in rows ensures IsRowOf(cfg, tree, p, rows[p], rows[p].sha) {
      RowKeepsSha(cfg, tree, p, rows[p], head);
    }
  }

  lemma WitnessCounts(cfg: Config, text: string, rows: map<Path, Row>, w: World, head: Option<string>, stale: Edge)
    requires ImportsB(cfg, text) && (w == WorldBefore(text) || w == WorldAfter(text))
    requires forall p :: p in rows <==> WalkTakes(cfg, w.tree, p)
    requires forall p :: p in rows ==> IsRowOf(cfg, w.tree, p, rows[p], head)
    requires stale == Edge(IMPORTER, None, "import b", "python") && Indexable(IMPORTER, false) == Some("python")
    ensures Outgoing(cfg, w, [ROOT], rows, stale) == if w == WorldBefore(text) then 1 else 0
  {
    hide Indexable, Resolve;
    assert WalkTakes(cfg, w.tree, IMPORTER);
    var row := rows[IMPORTER];
    assert row == RowOf(cfg, text, "python", head);
    assert ROOT + ["b", INIT] !in w.fs by { assert |ROOT + ["b", INIT]| == 3; }
    assert ROOT + ADDED in WorldAfter(text).fs;
    assert (ROOT + ADDED)[1] != (ROOT + IMPORTER)[1] by {
      assert ADDED[0] == "b.py" && IMPORTER[0] == "a.py" && "b.py"[0] != "a.py"[0];
    }
    WitnessEdges(cfg, w, row);
  }

  /** The stale edge as an instance of the exact condition: b.py is an earlier candidate of the import. */
  lemma AddedFileIsACandidate(cfg: Config, text: string)
    requires ImportsB(cfg, text)
    ensures CanDiscover(cfg, WorldBefore(text))
    ensures !DisturbsNone(cfg, FullIndex(cfg, WorldBefore(text), Some("c1")), WorldBefore(text), [Change(ADDED, Added)])
  {
    hide FullIndex, IncrementalIndex, DisturbsNone, Faithful, WellFormedWorld, Roots;
    var a, b, cs := WorldBefore(text), WorldAfter(text), [Change(ADDED, Added)];
    var tables := FullIndex(cfg, a, Some("c1"));
    WitnessWorlds(cfg, text);
    WitnessDiff(text);
    WellFormedDiscovers(cfg, a);
    AddedFileLeavesAStaleEdge(cfg, text);
    FullAgrees(cfg, a, Some("c1"));
    WitnessOutside(cfg, text);
    EdgesAgreeOnStableRoots(cfg, tables, a, b, cs, Some("c2"));
    var r := IncrementalIndex(cfg, tables, b, cs, Some("c2")).value;
    var stale := Edge(IMPORTER, None, "import b", "python");
    FullAgrees(cfg, b, Some("c2"));
    assert multiset(FullIndex(cfg, b, Some("c2")).edges)[stale] != multiset(r.edges)[stale];
  }

  lemma WitnessOutside(cfg: Config, text: string)
    requires cfg.root == ROOT
    ensures SameOutside(cfg, WorldBefore(text), WorldAfter(text))
    ensures SmallChanges([Change(ADDED, Added)], WorldAfter(text).tree)
  {}

  // ------------------------------------------------------------------
  // Growing past the size limit
  // ------------------------------------------------------------------

  /** One file, whose size is the length of its (ASCII) text. */
  function OneFile(text: string): World {
    World(map[IMPORTER := Blob(|text|, Some(text))], [IMPORTER], {ROOT + IMPORTER}, [])
  }

  function Growing(small: string, large: string): seq<Visit> {
    [Visit(OneFile(small), Some("c1"), false, None),
     Visit(OneFile(large), Some("c2"), false, Some([Change(IMPORTER, Modified)]))]
  }

  /**
    A file is indexed while it is small; then it grows past the limit. The incremental run
    keeps a row for it, with the new content; a full rebuild would have none.
   */
  lemma GrownFileKeepsItsRow(cfg: Config, small: string, large: string)
    requires cfg.root == ROOT && !cfg.includeTests
    requires |small| <= MAX_FILE_SIZE < |large|
    ensures var visits := Growing(small, large);
            && GoodHistory(cfg, map["c1" := OneFile(small).tree, "c2" := OneFile(large).tree], visits)
            && RunHistory(cfg, visits).Some?
            && var rows := RunHistory(cfg, visits).value.tables.rows;
               IMPORTER in rows && rows[IMPORTER].content == large
               && IMPORTER !in FullIndex(cfg, OneFile(large), Some("c2")).rows
  {
    hide RunHistory, FullIndex, Indexable, Faithful, WellFormedWorld, ShasTell, EdgesAsBuilt;
    var visits := Growing(small, large);
    var commits := map["c1" := OneFile(small).tree, "c2" := OneFile(large).tree];
    GrowingIsGood(cfg, small, large);
    ImporterIsPython();
    EveryHistory(cfg, commits, visits);
    RereadSince(cfg, small, large);
    FullIndexRows(cfg, OneFile(large), Some("c2"));
    var acc := RunHistory(cfg, visits).value;
    assert visits[1].world == OneFile(large) && Readable(cfg, OneFile(large).tree, IMPORTER);
    assert IsRowOf(cfg, OneFile(large).tree, IMPORTER, acc.tables.rows[IMPORTER], acc.tables.rows[IMPORTER].sha);
  }

  lemma OneFileIsGood(cfg: Config, text: string)
    requires cfg.root == ROOT
    ensures WellFormedWorld(cfg, OneFile(text)) && CanDiscover(cfg, OneFile(text))
  {
    var w := OneFile(text);
    assert [INIT] != ROOT + IMPORTER by { assert |[INIT]| == 1; }
    forall p ensures p in w.tree <==> ROOT + p in w.fs {
      assert (ROOT + p)[1..] == p && (ROOT + IMPORTER)[1..] == IMPORTER;
    }
  }

  lemma ModifiedIsFaithful(small: string, large: string)
    ensures Faithful(OneFile(small).tree, OneFile(large).tree, [Change(IMPORTER, Modified)])
  {
    var cs := [Change(IMPORTER, Modified)];
    forall p ensures Touches(cs, p) <==> p == IMPORTER {
      if p == IMPORTER { assert cs[0].path == p; }
    }
    assert Reads(cs, |cs|, IMPORTER) by { assert cs[0].path == IMPORTER; }
  }

  /** The first run is full, the second incremental. */
  lemma GrowingModes(cfg: Config, small: string, large: string)
    requires cfg.root == ROOT
    ensures var visits := Growing(small, large);
            && (forall k :: 0 <= k < |visits| ==> CanDiscover(cfg, visits[k].world))
            && RunHistory(cfg, visits[..0]) == Some(EMPTY) && ModeOf(EMPTY.tables, visits[0]) == FullMode
            && RunHistory(cfg, visits[..1]).Some?
            && RunHistory(cfg, visits[..1]).value.tables.head == Some("c1")
            && ModeOf(RunHistory(cfg, visits[..1]).value.tables, visits[1]) == IncrementalMode
  {
    hide FullIndex;
    OneFileIsGood(cfg, small);
    OneFileIsGood(cfg, large);
    var visits := Growing(small, large);
    assert visits[..1][..0] == [] && visits[..1][0] == visits[0];
    assert "c1"[1] != "c2"[1];
    FullHead(cfg, OneFile(small), Some("c1"));
  }

  lemma GrowingIsGood(cfg: Config, small: string, large: string)
    requires cfg.root == ROOT
    ensures GoodHistory(cfg, map["c1" := OneFile(small).tree, "c2" := OneFile(large).tree], Growing(small, large))
  {
    hide RunHistory, Faithful, WellFormedWorld, ModeOf, OneFile;
    OneFileIsGood(cfg, small);
    OneFileIsGood(cfg, large);
    ModifiedIsFaithful(small, large);
    GrowingModes(cfg, small, large);
    assert "c1"[1] != "c2"[1];
    var visits := Growing(small, large);
    assert |visits| == 2;
  }

  lemma RereadSince(cfg: Config, small: string, large: string)
    requires cfg.root == ROOT
    ensures forall k :: 0 <= k < |Growing(small, large)| ==> CanDiscover(cfg, Growing(small, large)[k].world)
    ensures RunHistory(cfg, Growing(small, large)).Some? ==>
              IMPORTER in RunHistory(cfg, Growing(small, large)).value.since
  {
    hide IndexRepository, ModeOf, OneFile;
    GrowingModes(cfg, small, large);
    var visits := Growing(small, large);
    assert visits[..|visits| - 1] == visits[..1];
    assert [Change(IMPORTER, Modified)][0].path == IMPORTER;
  }
}
