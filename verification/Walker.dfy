/**
  `gita.indexer.walker`: which repository files are indexed. A path is the list of its
  components below the repository root.
 */
module Walker {
  import opened Common

  type Path = seq<string>

  const SKIP_DIRS: set<string> := {
    "node_modules", ".venv", "venv", "env", "__pycache__", ".git", ".hg", ".svn", "dist", "build", "out",
    "target", ".next", ".nuxt", ".cache", "coverage", ".coverage", ".pytest_cache", ".mypy_cache",
    ".ruff_cache", ".tox", "vendor", ".idea", ".vscode"}

  const TEST_DIRS: set<string> := {"tests", "test", "spec", "__tests__"}

  const SKIP_SUFFIXES: seq<string> := [".min.js", ".min.css", ".d.ts", ".pyi", "_pb2.py", "_pb2_grpc.py", ".lock"]

  const MAX_FILE_SIZE := 200_000

  predicate EndsWith(s: string, suffix: string) {
    |suffix| <= |s| && s[|s| - |suffix|..] == suffix
  }

  /** `path.name`. */
  function Name(path: Path): string {
    if |path| == 0 then "" else path[|path| - 1]
  }

  /** Everything from the last dot on, if a dot stands strictly inside the name: `path.suffix`. */
  function Suffix(name: string): string {
    var i := LastDot(name);
    if 0 < i < |name| - 1 then name[i..] else ""
  }

  function LastDot(s: string): (i: int)
    ensures -1 <= i < |s|
  {
    if s == "" then -1
    else if s[|s| - 1] == '.' then |s| - 1
    else LastDot(s[..|s| - 1])
  }

  /** Some component of the path is one of these names. */
  predicate Has(p: Path, names: set<string>) {
    exists i :: 0 <= i < |p| && p[i] in names
  }

  /** LANGUAGE_BY_EXT. */
  function LanguageByExt(ext: string): Option<string> {
    if ext == ".py" then Some("python")
    else if ext == ".ts" then Some("typescript")
    else if ext in [".js", ".mjs", ".cjs", ".jsx"] then Some("javascript")
    else None
  }

  /** `_is_skipped`. */
  predicate IsSkipped(path: Path, includeTests: bool) {
    || (exists i :: 0 <= i < |path| && (path[i] in SKIP_DIRS || (!includeTests && path[i] in TEST_DIRS)))
    || (exists i :: 0 <= i < |SKIP_SUFFIXES| && EndsWith(Name(path), SKIP_SUFFIXES[i]))
  }

  /** `_is_indexable`: the language of a file that passes the filter. */
  function Indexable(path: Path, includeTests: bool): Option<string> {
    var language := LanguageByExt(Suffix(Name(path)));
    if language.None? || IsSkipped(path, includeTests) then None else language
  }
}
