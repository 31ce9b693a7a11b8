/**
  `gita.indexer.imports`: package roots and import resolution, over the set `fs` of all
  regular files, named by their absolute component lists.
 */
module Imports {
  import opened Common
  import opened Text
  import opened Walker

  const INIT := "__init__.py"

  function Parent(p: Path): Path {
    if |p| == 0 then p else p[..|p| - 1]
  }

  /** `path / part`; a blank part changes nothing. */
  function Div(p: Path, part: string): Path {
    if part == "" then p else p + [part]
  }

  // ------------------------------------------------------------------
  // Package roots
  // ------------------------------------------------------------------

  /** The topmost directory of the `__init__.py` chain above `dir`. */
  function TopPackage(fs: set<Path>, dir: Path): (top: Path)
    requires [INIT] !in fs
    ensures Parent(top) + [INIT] !in fs
    ensures top <= dir
    ensures dir + [INIT] in fs ==> top + [INIT] in fs && |top| > 0
    decreases |dir|
  {
    if Parent(dir) + [INIT] in fs then TopPackage(fs, Parent(dir)) else
      assert [] + [INIT] == [INIT];
      dir
  }

  function PackageRoot(fs: set<Path>, init: Path): Path
    requires [INIT] !in fs
  {
    Parent(TopPackage(fs, Parent(init)))
  }

  predicate Excluded(rel: Path) {
    exists i :: 0 <= i < |rel| && (rel[i] in SKIP_DIRS || rel[i] in TEST_DIRS)
  }

  /** Does this `__init__.py` give `root` as a package root other than the repository? */
  predicate Yields(fs: set<Path>, repo: Path, init: Path, root: Path)
    requires [INIT] !in fs && repo <= init
  {
    !Excluded(init[|repo|..]) && root == PackageRoot(fs, init) && root != repo
  }

  /** The roots found in the first n files, each where it is first found. */
  function RootsUpTo(fs: set<Path>, repo: Path, inits: seq<Path>, n: nat): seq<Path>
    requires [INIT] !in fs && n <= |inits|
    requires forall i :: 0 <= i < |inits| ==> repo <= inits[i]
  {
    if n == 0 then []
    else
      var earlier := RootsUpTo(fs, repo, inits, n - 1);
      var root := PackageRoot(fs, inits[n - 1]);
      if !Yields(fs, repo, inits[n - 1], root) || root in earlier then earlier else earlier + [root]
  }

  function RootsOf(fs: set<Path>, repo: Path, inits: seq<Path>): seq<Path>
    requires [INIT] !in fs
    requires forall i :: 0 <= i < |inits| ==> repo <= inits[i]
  {
    RootsUpTo(fs, repo, inits, |inits|) + [repo]
  }

  ghost predicate DistinctPaths(paths: seq<Path>) {
    forall i, j :: 0 <= i < j < |paths| ==> paths[i] != paths[j]
  }

  /** One of the first n files gives this root. */
  ghost predicate GivenBy(fs: set<Path>, repo: Path, inits: seq<Path>, n: nat, root: Path)
    requires [INIT] !in fs && n <= |inits|
    requires forall i :: 0 <= i < |inits| ==> repo <= inits[i]
  {
    exists i :: 0 <= i < n && Yields(fs, repo, inits[i], root)
  }

  /** The discovered roots are distinct, hold no `__init__.py`, and are exactly those some file gives. */
  lemma {:induction false} RootsAreGiven(fs: set<Path>, repo: Path, inits: seq<Path>, n: nat)
    requires [INIT] !in fs && n <= |inits|
    requires forall i :: 0 <= i < |inits| ==> repo <= inits[i]
    ensures DistinctPaths(RootsUpTo(fs, repo, inits, n))
    ensures forall root :: root in RootsUpTo(fs, repo, inits, n) ==> root + [INIT] !in fs && root != repo
    ensures forall root :: root in RootsUpTo(fs, repo, inits, n) <==> GivenBy(fs, repo, inits, n, root)
  {
    hide Excluded, GivenBy;
    if n == 0 {
      NoneGiven(fs, repo, inits);
    } else {
      RootsAreGiven(fs, repo, inits, n - 1);
      forall root ensures root in RootsUpTo(fs, repo, inits, n) <==> GivenBy(fs, repo, inits, n, root) {
        GivenStep(fs, repo, inits, n, root);
      }
    }
  }

  lemma NoneGiven(fs: set<Path>, repo: Path, inits: seq<Path>)
    requires [INIT] !in fs
    requires forall i :: 0 <= i < |inits| ==> repo <= inits[i]
    ensures forall root :: !GivenBy(fs, repo, inits, 0, root)
  {}

  lemma GivenStep(fs: set<Path>, repo: Path, inits: seq<Path>, n: nat, root: Path)
    requires [INIT] !in fs && 0 < n <= |inits|
    requires forall i :: 0 <= i < |inits| ==> repo <= inits[i]
    ensures GivenBy(fs, repo, inits, n, root)
       <==> GivenBy(fs, repo, inits, n - 1, root) || Yields(fs, repo, inits[n - 1], root)
  {
    hide Yields;
  }

  lemma RootsOfFacts(fs: set<Path>, repo: Path, inits: seq<Path>)
    requires [INIT] !in fs
    requires forall i :: 0 <= i < |inits| ==> repo <= inits[i]
    ensures DistinctPaths(RootsOf(fs, repo, inits))
    ensures forall root :: root in RootsUpTo(fs, repo, inits, |inits|) ==> root + [INIT] !in fs
    ensures forall root :: root in RootsOf(fs, repo, inits) <==> root == repo || GivenBy(fs, repo, inits, |inits|, root)
  {
    RootsAreGiven(fs, repo, inits, |inits|);
    var found := RootsUpTo(fs, repo, inits, |inits|);
    assert forall i :: 0 <= i < |found| ==> found[i] in found;
  }

  /**
    The directory a package hangs on: every directory from the one below it down to that of
    the file's parent holds an `__init__.py`, and it holds none.
   */
  ghost predicate IsPackageRoot(fs: set<Path>, init: Path, root: Path) {
    && root <= init && |root| + 2 <= |init| && root + [INIT] !in fs
    && forall k :: |root| < k < |init| - 1 ==> init[..k] + [INIT] in fs
  }

  lemma {:induction false} TopHasTheChain(fs: set<Path>, dir: Path)
    requires [INIT] !in fs && |dir| > 0
    ensures var root := Parent(TopPackage(fs, dir));
            && root < dir && root + [INIT] !in fs
            && forall k :: |root| < k < |dir| ==> dir[..k] + [INIT] in fs
    decreases |dir|
  {
    var up := Parent(dir);
    if up + [INIT] in fs {
      assert [] + [INIT] == [INIT];
      TopHasTheChain(fs, up);
      var root := Parent(TopPackage(fs, dir));
      forall k | |root| < k < |dir| ensures dir[..k] + [INIT] in fs {
        assert k < |up| ==> dir[..k] == up[..k];
      }
    }
  }

  lemma {:induction false} PackageRootIs(fs: set<Path>, init: Path, root: Path)
    requires [INIT] !in fs && |init| >= 2
    ensures PackageRoot(fs, init) == root <==> IsPackageRoot(fs, init, root)
  {
    hide TopPackage;
    var dir, found := Parent(init), PackageRoot(fs, init);
    TopHasTheChain(fs, dir);
    forall k | |found| < k < |init| - 1 ensures init[..k] + [INIT] in fs {
      assert init[..k] == dir[..k];
    }
    if IsPackageRoot(fs, init, root) {
      assert root == init[..|root|] && found == init[..|found|];
    }
  }

  /**
    Besides the repository, the roots are the directories that the packages of the repository
    hang on, for every `__init__.py` below neither a skipped nor a test directory of it.
   */
  lemma RootsAreExactly(fs: set<Path>, repo: Path, inits: seq<Path>)
    requires [INIT] !in fs
    requires forall i :: 0 <= i < |inits| ==> repo <= inits[i] && |inits[i]| >= 2
    ensures forall root :: root in RootsOf(fs, repo, inits) <==>
              || root == repo
              || exists i :: 0 <= i < |inits| && IsPackageRoot(fs, inits[i], root)
                             && !Has(inits[i][|repo|..], SKIP_DIRS) && !Has(inits[i][|repo|..], TEST_DIRS)
  {
    hide PackageRoot, IsPackageRoot, RootsOf;
    RootsOfFacts(fs, repo, inits);
    forall root
      ensures GivenBy(fs, repo, inits, |inits|, root)
         <==> exists i :: 0 <= i < |inits| && root != repo && IsPackageRoot(fs, inits[i], root)
                          && !Has(inits[i][|repo|..], SKIP_DIRS) && !Has(inits[i][|repo|..], TEST_DIRS)
    {
      forall i | 0 <= i < |inits| ensures PackageRoot(fs, inits[i]) == root <==> IsPackageRoot(fs, inits[i], root) {
        PackageRootIs(fs, inits[i], root);
      }
      assert forall i :: 0 <= i < |inits| ==>
        (Excluded(inits[i][|repo|..]) <==> Has(inits[i][|repo|..], SKIP_DIRS) || Has(inits[i][|repo|..], TEST_DIRS));
    }
  }

  /**
    The inner loop of `discover_package_roots`: it ends because the path gets shorter and
    the filesystem root holds no `__init__.py`.
   */
  method Climb(fs: set<Path>, start: Path) returns (dir: Path)
    requires [INIT] !in fs
    ensures dir == TopPackage(fs, start)
    ensures Parent(dir) + [INIT] !in fs
  {
    dir := start;
    while Parent(dir) + [INIT] in fs
      invariant TopPackage(fs, dir) == TopPackage(fs, start)
      decreases |dir|
    {
      assert [] + [INIT] == [INIT];
      dir := Parent(dir);
    }
  }

  /** `discover_package_roots`. */
  method DiscoverPackageRoots(fs: set<Path>, repo: Path, inits: seq<Path>) returns (roots: seq<Path>)
    requires [INIT] !in fs
    requires forall i :: 0 <= i < |inits| ==> repo <= inits[i]
    ensures roots == RootsOf(fs, repo, inits)
    ensures |roots| > 0 && roots[|roots| - 1] == repo
    ensures DistinctPaths(roots)
    ensures forall i :: 0 <= i < |roots| - 1 ==> roots[i] + [INIT] !in fs
    ensures forall root :: root in roots <==> root == repo || GivenBy(fs, repo, inits, |inits|, root)
  {
    hide Excluded, GivenBy, DistinctPaths, TopPackage;
    roots := [];
    var seen: set<Path> := {};
    for n := 0 to |inits|
      invariant roots == RootsUpTo(fs, repo, inits, n)
      invariant forall root :: root in seen <==> root in roots
    {
      var init := inits[n];
      if Excluded(init[|repo|..]) {
        continue;
      }
      var dir := Climb(fs, Parent(init));
      var root := Parent(dir);
      if root == repo || root in seen {
        continue;
      }
      seen := seen + {root};
      roots := roots + [root];
    }
    roots := roots + [repo];
    RootsOfFacts(fs, repo, inits);
  }

  // ------------------------------------------------------------------
  // Python
  // ------------------------------------------------------------------

  function DivAll(p: Path, parts: seq<string>): Path
    decreases |parts|
  {
    if |parts| == 0 then p else DivAll(Div(p, parts[0]), parts[1..])
  }

  /** `_find_python_module_under`. */
  function FindUnder(fs: set<Path>, dotted: string, base: Path): (found: Option<Path>)
    ensures found.Some? ==> found.value in fs
  {
    if dotted == "" then
      if base + [INIT] in fs then Some(base + [INIT]) else None
    else
      var parts := Split(dotted, '.');
      var target, last := DivAll(base, parts[..|parts| - 1]), parts[|parts| - 1];
      var direct, asPackage := target + [last + ".py"], Div(target, last) + [INIT];
      if direct in fs then Some(direct)
      else if asPackage in fs then Some(asPackage)
      else None
  }

  /** `_find_python_module_in_roots`. */
  function FindInRoots(fs: set<Path>, dotted: string, roots: seq<Path>): (found: Option<Path>)
    ensures found.Some? ==> found.value in fs
  {
    if |roots| == 0 then None
    else
      var here := FindUnder(fs, dotted, roots[0]);
      if here.Some? then here else FindInRoots(fs, dotted, roots[1..])
  }

  /** `s.split(pattern, 1)[0]`, or None when the pattern does not occur. */
  function Before(s: string, pattern: string): (r: Option<string>)
    ensures r.Some? ==> r.value + pattern <= s
  {
    if pattern <= s then Some("")
    else if s == "" then None
    else
      match Before(s[1..], pattern)
      case None => None
      case Some(front) => Some([s[0]] + front)
  }

  function RStripChar(s: string, c: char): string {
    if s != "" && s[|s| - 1] == c then RStripChar(s[..|s| - 1], c) else s
  }

  function LeadingDots(s: string): nat {
    if s != "" && s[0] == '.' then 1 + LeadingDots(s[1..]) else 0
  }

  function Up(p: Path, n: nat): Path {
    if n == 0 then p else Up(Parent(p), n - 1)
  }

  lemma {:induction false} LeadingDotsBound(s: string)
    ensures LeadingDots(s) <= |s|
    ensures forall i :: 0 <= i < LeadingDots(s) ==> s[i] == '.'
    ensures LeadingDots(s) < |s| ==> s[LeadingDots(s)] != '.'
  {
    if s != "" && s[0] == '.' {
      LeadingDotsBound(s[1..]);
    }
  }

  lemma {:induction false} LeadingDotsUnique(s: string, n: nat)
    requires n <= |s| && (forall i :: 0 <= i < n ==> s[i] == '.') && (n < |s| ==> s[n] != '.')
    ensures LeadingDots(s) == n
  {
    if n > 0 {
      LeadingDotsUnique(s[1..], n - 1);
    }
  }

  function FromImport(fs: set<Path>, body: string, source: Path, roots: seq<Path>): (found: Option<Path>)
    ensures found.Some? ==> found.value in fs
  {
    match Before(body, " import ")
    case None => None
    case Some(front) =>
      var name := Strip(front);
      var dots := LeadingDots(name);
      if dots > 0 then
        LeadingDotsBound(name);
        FindUnder(fs, name[dots..], Up(Parent(source), dots - 1))
      else FindInRoots(fs, name, roots)
  }

  /** `_resolve_python_from_import`, with its loops over the dots and the parent directories. */
  method ResolveFromImport(fs: set<Path>, body: string, source: Path, roots: seq<Path>) returns (found: Option<Path>)
    ensures found == FromImport(fs, body, source, roots)
    ensures found.Some? ==> found.value in fs
  {
    var front := Before(body, " import ");
    if front.None? {
      return None;
    }
    var name := Strip(front.value);
    if name == "" || name[0] != '.' {
      return FindInRoots(fs, name, roots);
    }
    var dots := 0;
    while dots < |name| && name[dots] == '.'
      invariant dots <= |name| && forall i :: 0 <= i < dots ==> name[i] == '.'
    {
      dots := dots + 1;
    }
    LeadingDotsUnique(name, dots);
    var base := Parent(source);
    for k := 0 to dots - 1
      invariant Up(Parent(source), dots - 1) == Up(base, dots - 1 - k)
    {
      base := Parent(base);
    }
    return FindUnder(fs, name[dots..], base);
  }

  function PlainImport(fs: set<Path>, rest: string, roots: seq<Path>): (found: Option<Path>)
    ensures found.Some? ==> found.value in fs
  {
    var first := Strip(Split(Strip(rest), ',')[0]);
    var name := Strip(Before(first, " as ").GetOr(first));
    if name == "" then None else FindInRoots(fs, name, roots)
  }

  /** `resolve_python_import`. */
  function ResolvePython(fs: set<Path>, raw: string, source: Path, roots: seq<Path>): (found: Option<Path>)
    ensures found.Some? ==> found.value in fs
  {
    var text := RStripChar(Strip(raw), ';');
    if "from " <= text then FromImport(fs, text[5..], source, roots)
    else if "import " <= text then PlainImport(fs, text[7..], roots)
    else None
  }

  // ------------------------------------------------------------------
  // TypeScript / JavaScript
  // ------------------------------------------------------------------

  predicate IsQuote(c: char) { c == '\'' || c == '"' }

  /** Length of the longest prefix without a quote. */
  function Unquoted(s: string): (n: nat)
    ensures n <= |s|
    ensures n < |s| ==> IsQuote(s[n])
    ensures forall i :: 0 <= i < n ==> !IsQuote(s[i])
  {
    if s == "" || IsQuote(s[0]) then 0 else 1 + Unquoted(s[1..])
  }

  /** The first non-empty run of other characters between two quotes. */
  function FirstLiteral(raw: string): (spec: Option<string>)
    ensures spec.Some? ==> |spec.value| > 0 && forall i :: 0 <= i < |spec.value| ==> !IsQuote(spec.value[i])
  {
    if raw == "" then None
    else
      var n := Unquoted(raw[1..]);
      if IsQuote(raw[0]) && n > 0 && 1 + n < |raw| then Some(raw[1..1 + n])
      else FirstLiteral(raw[1..])
  }

  /** "." and "" stay, ".." goes up, anything else goes down. */
  function StepTo(base: Path, part: string): Path {
    if part == "" || part == "." then base else if part == ".." then Parent(base) else base + [part]
  }

  /** `resolve()`. */
  function Normalise(base: Path, parts: seq<string>): Path
    decreases |parts|
  {
    if |parts| == 0 then base else Normalise(StepTo(base, parts[0]), parts[1..])
  }

  const TSJS_EXTENSIONS: seq<string> := [".ts", ".tsx", ".js", ".jsx", ".mjs", ".cjs"]
  const TSJS_INDEX_NAMES: seq<string> := ["index.ts", "index.tsx", "index.js", "index.jsx", "index.mjs", "index.cjs"]

  /** `Path(str(target) + ext)`. */
  function WithExtension(target: Path, ext: string): Path {
    if |target| == 0 then [ext] else Parent(target) + [Name(target) + ext]
  }

  function FirstExisting(fs: set<Path>, candidates: seq<Path>): (found: Option<Path>)
    ensures found.Some? ==> found.value in fs && found.value in candidates
    ensures found.None? ==> forall i :: 0 <= i < |candidates| ==> candidates[i] !in fs
  {
    if |candidates| == 0 then None
    else if candidates[0] in fs then Some(candidates[0])
    else FirstExisting(fs, candidates[1..])
  }

  function Candidates(target: Path): seq<Path> {
    [target]
    + seq(|TSJS_EXTENSIONS|, i requires 0 <= i < |TSJS_EXTENSIONS| => WithExtension(target, TSJS_EXTENSIONS[i]))
    + seq(|TSJS_INDEX_NAMES|, i requires 0 <= i < |TSJS_INDEX_NAMES| => target + [TSJS_INDEX_NAMES[i]])
  }

  /** `resolve_ts_js_import`: only relative and absolute specifiers that stay in the repository. */
  function ResolveTsJs(fs: set<Path>, raw: string, source: Path, repo: Path): (found: Option<Path>)
    ensures found.Some? ==> found.value in fs
  {
    match FirstLiteral(raw)
    case None => None
    case Some(spec) =>
      if spec[..1] != "." && spec[..1] != "/" then None
      else
        var target := Normalise(if spec[..1] == "/" then [] else Parent(source), Split(spec, '/'));
        if !(repo <= target) then None else FirstExisting(fs, Candidates(target))
  }

  /** `resolve_import`. */
  function Resolve(fs: set<Path>, raw: string, source: Path, repo: Path, language: string,
                   roots: seq<Path>): (found: Option<Path>)
    ensures found.Some? ==> found.value in fs
  {
    if language == "python" then ResolvePython(fs, raw, source, roots)
    else if language == "typescript" || language == "javascript" then ResolveTsJs(fs, raw, source, repo)
    else None
  }
}
