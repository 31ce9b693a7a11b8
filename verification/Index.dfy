/**
  `gita.indexer.ingest`: the two ways to bring `code_index` and `import_edges` up to date,
  as functions of the tables and of what the run sees on disk. The Tree-sitter parser is
  any function of content and language.
 */
module Index {
  import opened Common
  import opened Text
  import opened Walker
  import opened NameStatus
  import Imports

  /** A file of the working tree; `text` is None when it cannot be read as UTF-8. */
  datatype Blob = Blob(size: nat, text: Option<string>)

  type Tree = map<Path, Blob>

  datatype Structure = Structure(imports: seq<string>, functions: seq<string>, classes: seq<string>)

  datatype Row = Row(language: string, content: string, lineCount: nat, sha: Option<string>, structure: Structure)

  datatype Edge = Edge(src: Path, dst: Option<Path>, raw: string, language: string)

  datatype Config = Config(root: Path, includeTests: bool, parse: (string, string) -> Structure)

  /**
    What one run sees: the files under the root with the order the walk yields them, all
    regular files of the machine, and the `__init__.py` files in walk order.
   */
  datatype World = World(tree: Tree, listing: seq<Path>, fs: set<Path>, inits: seq<Path>)

  datatype Change = Change(path: Path, status: Status)

  /** The tables of one repository: `repos.head_sha`, `code_index` by path, `import_edges`. */
  datatype Tables = Tables(head: Option<string>, rows: map<Path, Row>, edges: seq<Edge>)

  /** A row on its way into `code_index`. */
  datatype Coded = Coded(path: Path, row: Row)

  /** The unique constraint uq_code_index_repo_file refused an insert. */
  datatype Conflict = Conflict

  /** What package-root discovery needs to terminate, and to see the repository's files only. */
  ghost predicate CanDiscover(cfg: Config, w: World) {
    [Imports.INIT] !in w.fs && forall i :: 0 <= i < |w.inits| ==> cfg.root <= w.inits[i]
  }

  ghost predicate WellFormedWorld(cfg: Config, w: World) {
    && CanDiscover(cfg, w)
    && (forall p :: p in w.tree <==> cfg.root + p in w.fs)
    && (forall p :: p in w.listing <==> p in w.tree)
    && (forall i, j :: 0 <= i < j < |w.listing| ==> w.listing[i] != w.listing[j])
  }

  // ------------------------------------------------------------------
  // Rows
  // ------------------------------------------------------------------

  function Newlines(s: string): nat {
    if s == "" then 0 else Newlines(s[..|s| - 1]) + (if s[|s| - 1] == '\n' then 1 else 0)
  }

  function LineCount(content: string): nat {
    Newlines(content) + (if EndsWith(content, "\n") then 0 else 1)
  }

  lemma {:induction false} NewlinesAppend(a: string, b: string)
    ensures Newlines(a + b) == Newlines(a) + Newlines(b)
  {
    if b == "" {
      assert a + b == a;
    } else {
      assert (a + b)[..|a + b| - 1] == a + b[..|b| - 1];
      NewlinesAppend(a, b[..|b| - 1]);
    }
  }

  lemma {:induction false} NewlinesOfLine(line: string)
    requires Without(line, '\n')
    ensures Newlines(line) == 0
  {
    if line != "" {
      NewlinesOfLine(line[..|line| - 1]);
    }
  }

  /** Lines joined by line feeds are counted as they were, with or without a last line feed. */
  lemma LinesAreCounted(lines: seq<string>)
    requires |lines| > 0 && forall i :: 0 <= i < |lines| ==> Without(lines[i], '\n')
    ensures Newlines(Join(lines, '\n')) == |lines| - 1
    ensures LineCount(Join(lines, '\n') + "\n") == |lines|
    ensures LineCount(Join(lines, '\n')) == if |lines| > 1 && lines[|lines| - 1] == "" then |lines| - 1 else |lines|
  {
    hide Without, Newlines;
    var content := Join(lines, '\n');
    NewlinesBetween(lines);
    NewlinesAppend(content, "\n");
    OneNewline();
    JoinEnds(lines);
  }

  lemma OneNewline()
    ensures Newlines("\n") == 1
  {
    assert "\n"[..0] == "";
  }

  lemma {:induction false} NewlinesBetween(lines: seq<string>)
    requires |lines| > 0 && forall i :: 0 <= i < |lines| ==> Without(lines[i], '\n')
    ensures Newlines(Join(lines, '\n')) == |lines| - 1
  {
    hide Without, Newlines;
    NewlinesOfLine(lines[0]);
    if |lines| > 1 {
      NewlinesBetween(lines[1..]);
      NewlinesAppend(lines[0] + "\n", Join(lines[1..], '\n'));
      NewlinesAppend(lines[0], "\n");
      OneNewline();
      assert lines[0] + ['\n'] == lines[0] + "\n";
    }
  }

  /** Joined lines end in a line feed exactly when there are two or more and the last is empty. */
  lemma {:induction false} JoinEnds(lines: seq<string>)
    requires |lines| > 0 && Without(lines[|lines| - 1], '\n')
    ensures Join(lines, '\n') == "" <==> lines == [""]
    ensures Join(lines, '\n') != "" ==>
              (Join(lines, '\n')[|Join(lines, '\n')| - 1] == '\n' <==> lines[|lines| - 1] == "")
  {
    if |lines| > 1 {
      JoinEnds(lines[1..]);
    }
  }

  function RowOf(cfg: Config, content: string, language: string, sha: Option<string>): Row {
    Row(language, content, LineCount(content), sha, cfg.parse(content, language))
  }

  /** `_parse_and_build_row`; None when the file is missing or unreadable. */
  function ParseRow(cfg: Config, tree: Tree, path: Path, language: string, sha: Option<string>): Option<Row> {
    if path !in tree || tree[path].text.None? then None
    else Some(RowOf(cfg, tree[path].text.value, language, sha))
  }

  /** Which files the walk of a full rebuild turns into rows. */
  predicate WalkTakes(cfg: Config, tree: Tree, p: Path) {
    && p in tree && Indexable(p, cfg.includeTests).Some? && tree[p].size <= MAX_FILE_SIZE && tree[p].text.Some?
  }

  /** The code rows a full rebuild builds from the first n files of the walk. */
  function WalkRows(cfg: Config, w: World, n: nat, sha: Option<string>): seq<Coded>
    requires n <= |w.listing|
  {
    if n == 0 then []
    else
      var rest, p := WalkRows(cfg, w, n - 1, sha), w.listing[n - 1];
      var language := Indexable(p, cfg.includeTests);
      if language.None? || p !in w.tree || w.tree[p].size > MAX_FILE_SIZE then rest
      else match ParseRow(cfg, w.tree, p, language.value, sha)
        case None => rest
        case Some(row) => rest + [Coded(p, row)]
  }

  /** Adding rows in order to the table. */
  function AddRows(rows: map<Path, Row>, coded: seq<Coded>): map<Path, Row> {
    if |coded| == 0 then rows
    else AddRows(rows, coded[..|coded| - 1])[coded[|coded| - 1].path := coded[|coded| - 1].row]
  }

  /** The unique constraint admits these rows. */
  predicate Admits(rows: map<Path, Row>, coded: seq<Coded>) {
    && (forall i :: 0 <= i < |coded| ==> coded[i].path !in rows)
    && (forall i, j :: 0 <= i < j < |coded| ==> coded[i].path != coded[j].path)
  }

  // ------------------------------------------------------------------
  // Edges
  // ------------------------------------------------------------------

  function Roots(cfg: Config, w: World): seq<Path>
    requires CanDiscover(cfg, w)
  {
    Imports.RootsOf(w.fs, cfg.root, w.inits)
  }

  /** `relative_to(root_path)`: the path below the root, or None for a file outside it. */
  function Relative(root: Path, file: Path): Option<Path> {
    if root <= file then Some(file[|root|..]) else None
  }

  function EdgeFor(cfg: Config, w: World, roots: seq<Path>, c: Coded, raw: string): Edge {
    var resolved := Imports.Resolve(w.fs, raw, cfg.root + c.path, cfg.root, c.row.language, roots);
    Edge(c.path, if resolved.None? then None else Relative(cfg.root, resolved.value), raw, c.row.language)
  }

  /** The edges of the first n imports of one row; a blank import gives none. */
  function RowEdges(cfg: Config, w: World, roots: seq<Path>, c: Coded, n: nat): seq<Edge>
    requires n <= |c.row.structure.imports|
  {
    if n == 0 then []
    else
      var raw, rest := c.row.structure.imports[n - 1], RowEdges(cfg, w, roots, c, n - 1);
      if raw == "" then rest else rest + [EdgeFor(cfg, w, roots, c, raw)]
  }

  /** All outgoing edges of a row, resolved in the world w. */
  function OutEdges(cfg: Config, w: World, roots: seq<Path>, c: Coded): seq<Edge> {
    RowEdges(cfg, w, roots, c, |c.row.structure.imports|)
  }

  /** `_build_edges`. */
  function BuildEdges(cfg: Config, w: World, roots: seq<Path>, coded: seq<Coded>): seq<Edge> {
    if |coded| == 0 then []
    else BuildEdges(cfg, w, roots, coded[..|coded| - 1]) + OutEdges(cfg, w, roots, coded[|coded| - 1])
  }

  function CountResolved(edges: seq<Edge>): nat {
    if |edges| == 0 then 0 else CountResolved(edges[..|edges| - 1]) + (if edges[|edges| - 1].dst.Some? then 1 else 0)
  }

  /** DELETE FROM import_edges WHERE src_file = p. */
  function DropEdges(edges: seq<Edge>, p: Path): seq<Edge> {
    if |edges| == 0 then []
    else
      var rest, e := DropEdges(edges[..|edges| - 1], p), edges[|edges| - 1];
      if e.src == p then rest else rest + [e]
  }

  // ------------------------------------------------------------------
  // Full index
  // ------------------------------------------------------------------

  /** `_full_index`: wipe, re-read every file of the walk, re-link. */
  function FullIndex(cfg: Config, w: World, head: Option<string>): Tables
    requires CanDiscover(cfg, w)
  {
    var coded := WalkRows(cfg, w, |w.listing|, head);
    Tables(head, AddRows(map[], coded), BuildEdges(cfg, w, Roots(cfg, w), coded))
  }

  // ------------------------------------------------------------------
  // Incremental index
  // ------------------------------------------------------------------

  /** Does this change delete the row and the outgoing edges of its path? */
  predicate Deletes(cfg: Config, c: Change) {
    c.status == Deleted || (c.status == Modified && Indexable(c.path, cfg.includeTests).Some?)
  }

  /** The tables after the deletions of the first n changes. */
  function AfterDeletes(cfg: Config, rows: map<Path, Row>, edges: seq<Edge>, cs: seq<Change>, n: nat): (map<Path, Row>,
                        seq<Edge>)
    requires n <= |cs|
  {
    if n == 0 then (rows, edges)
    else
      var (rows', edges') := AfterDeletes(cfg, rows, edges, cs, n - 1);
      if Deletes(cfg, cs[n - 1]) then (rows' - {cs[n - 1].path}, DropEdges(edges', cs[n - 1].path)) else (rows', edges')
  }

  /** The rows re-read for the first n changes. */
  function Reread(cfg: Config, w: World, cs: seq<Change>, n: nat, head: Option<string>): seq<Coded>
    requires n <= |cs|
  {
    if n == 0 then []
    else
      var rest, c := Reread(cfg, w, cs, n - 1, head), cs[n - 1];
      if c.status == Deleted then rest
      else match Indexable(c.path, cfg.includeTests)
        case None => rest
        case Some(language) =>
          match ParseRow(cfg, w.tree, c.path, language, head)
          case None => rest
          case Some(row) => rest + [Coded(c.path, row)]
  }

  /** `_incremental_index`: drop and re-read the changed files only. */
  function IncrementalIndex(cfg: Config, idx: Tables, w: World, cs: seq<Change>,
                            head: Option<string>): Result<Tables, Conflict>
    requires CanDiscover(cfg, w)
  {
    var (rows, edges) := AfterDeletes(cfg, idx.rows, idx.edges, cs, |cs|);
    var coded := Reread(cfg, w, cs, |cs|, head);
    if !Admits(rows, coded) then Failure(Conflict)
    else Success(Tables(head, AddRows(rows, coded), edges + BuildEdges(cfg, w, Roots(cfg, w), coded)))
  }

  // ------------------------------------------------------------------
  // Choice of mode
  // ------------------------------------------------------------------

  /** One call of `index_repository`; `diff` is what `detect_changes` returns when asked. */
  datatype Visit = Visit(world: World, head: Option<string>, force: bool, diff: Option<seq<Change>>)

  datatype Mode = FullMode | IncrementalMode | NoopMode

  function ModeOf(idx: Tables, v: Visit): Mode {
    if !(v.force || idx.head.None?) && v.head.Some? then
      if idx.head == v.head then NoopMode
      else if v.diff.Some? then IncrementalMode
      else FullMode
    else FullMode
  }

  /** `index_repository`. */
  function IndexRepository(cfg: Config, idx: Tables, v: Visit): Result<Tables, Conflict>
    requires CanDiscover(cfg, v.world)
  {
    match ModeOf(idx, v)
    case NoopMode => Success(idx)
    case IncrementalMode => IncrementalIndex(cfg, idx, v.world, v.diff.value, v.head)
    case FullMode => Success(FullIndex(cfg, v.world, v.head))
  }
}
