/**
  What package-root discovery is for: an absolute import of a module inside a package
  resolves to that module's own file, unless something earlier shadows it.
 */
module PackagedImports {
  import opened Common
  import opened Text
  import opened Walker
  import opened Imports

  /** Identifiers: not blank, no dot, no white space. */
  ghost predicate Identifiers(parts: seq<string>) {
    |parts| >= 1 && forall i :: 0 <= i < |parts| ==>
      parts[i] != "" && Without(parts[i], '.') && forall k :: 0 <= k < |parts[i]| ==> !IsSpace(parts[i][k])
  }

  /** The file of the module `parts` under a root: `a/b/c.py`, or `a/b/c/__init__.py`. */
  function ModuleFile(root: Path, parts: seq<string>, isPackage: bool): Path
    requires |parts| >= 1
  {
    var last := parts[|parts| - 1];
    if isPackage then root + parts + [INIT] else root + parts[..|parts| - 1] + [last + ".py"]
  }

  /** What a root offers for the module: the plain file first, then the package. */
  function Hit(fs: set<Path>, root: Path, parts: seq<string>): Option<Path>
    requires |parts| >= 1
  {
    if ModuleFile(root, parts, false) in fs then Some(ModuleFile(root, parts, false))
    else if ModuleFile(root, parts, true) in fs then Some(ModuleFile(root, parts, true))
    else None
  }

  lemma {:induction false} DivAllAppends(p: Path, parts: seq<string>)
    requires forall i :: 0 <= i < |parts| ==> parts[i] != ""
    ensures DivAll(p, parts) == p + parts
    decreases |parts|
  {
    if |parts| > 0 {
      DivAllAppends(Div(p, parts[0]), parts[1..]);
      assert p + [parts[0]] + parts[1..] == p + parts;
    }
  }

  lemma FindUnderDotted(fs: set<Path>, root: Path, parts: seq<string>)
    requires Identifiers(parts)
    ensures FindUnder(fs, Join(parts, '.'), root) == Hit(fs, root, parts)
  {
    SplitOfJoin(parts, '.');
    assert Join(parts, '.') != "" by { assert parts[0] != ""; }
    var n := |parts| - 1;
    DivAllAppends(root, parts[..n]);
    assert parts[n] != "";
    FindUnderSplit(fs, root, Join(parts, '.'), parts);
  }

  lemma FindUnderSplit(fs: set<Path>, root: Path, dotted: string, parts: seq<string>)
    requires |parts| >= 1 && dotted != "" && Split(dotted, '.') == parts && parts[|parts| - 1] != ""
    requires DivAll(root, parts[..|parts| - 1]) == root + parts[..|parts| - 1]
    ensures FindUnder(fs, dotted, root) == Hit(fs, root, parts)
  {
    hide Split, DivAll;
    var front, last := parts[..|parts| - 1], parts[|parts| - 1];
    assert root + front + [last] == root + parts;
  }

  /** An import meets the first root that offers the module. */
  lemma {:induction false} FirstHitWins(fs: set<Path>, parts: seq<string>, roots: seq<Path>, k: nat)
    requires Identifiers(parts) && k < |roots|
    requires Hit(fs, roots[k], parts).Some? && forall j :: 0 <= j < k ==> Hit(fs, roots[j], parts).None?
    ensures FindInRoots(fs, Join(parts, '.'), roots) == Hit(fs, roots[k], parts)
    decreases k
  {
    FindUnderDotted(fs, roots[0], parts);
    if k > 0 {
      FirstHitWins(fs, parts, roots[1..], k - 1);
    }
  }

  lemma FirstHit(fs: set<Path>, parts: seq<string>, roots: seq<Path>, j: nat) returns (k: nat)
    requires |parts| >= 1 && j < |roots| && Hit(fs, roots[j], parts).Some?
    ensures k <= j && Hit(fs, roots[k], parts).Some? && forall i :: 0 <= i < k ==> Hit(fs, roots[i], parts).None?
  {
    k := 0;
    while Hit(fs, roots[k], parts).None?
      invariant k <= j && forall i :: 0 <= i < k ==> Hit(fs, roots[i], parts).None?
      decreases j - k
    {
      k := k + 1;
    }
  }

  lemma InitStem(stem: string)
    ensures stem + ".py" == INIT ==> stem == "__init__"
  {
    assert (stem + ".py")[..|stem|] == stem;
    assert INIT[..8] == "__init__";
  }

  /** Different roots offer different files, for a module that is not itself called `__init__`. */
  lemma FilesDiffer(a: Path, b: Path, parts: seq<string>, x: bool, y: bool)
    requires |parts| >= 1 && parts[|parts| - 1] != "__init__"
    requires ModuleFile(a, parts, x) == ModuleFile(b, parts, y)
    ensures a == b && x == y
  {
    var f, g, last := ModuleFile(a, parts, x), ModuleFile(b, parts, y), parts[|parts| - 1];
    assert f[|f| - 1] == if x then INIT else last + ".py";
    assert g[|g| - 1] == if y then INIT else last + ".py";
    InitStem(last);
    assert x == y;
    var n := if x then |parts| + 1 else |parts|;
    assert a == f[..|f| - n] == g[..|g| - n] == b;
  }

  // ------------------------------------------------------------------
  // From the text of the import statement
  // ------------------------------------------------------------------

  lemma {:induction false} JoinHasNoSpace(parts: seq<string>)
    requires Identifiers(parts)
    ensures forall k :: 0 <= k < |Join(parts, '.')| ==> !IsSpace(Join(parts, '.')[k])
    ensures Join(parts, '.') != "" && Join(parts, '.')[0] != '.'
  {
    assert parts[0][0] != '.';
    if |parts| > 1 {
      JoinHasNoSpace(parts[1..]);
    }
  }

  lemma {:induction false} BeforeFirst(front: string, rest: string)
    requires forall k :: 0 <= k < |front| ==> !IsSpace(front[k])
    ensures Before(front + " import " + rest, " import ") == Some(front)
  {
    var s := front + " import " + rest;
    if front == "" {
      assert s == " import " + rest;
    } else {
      assert s[0] == front[0] && " import "[0] == ' ';
      assert s[1..] == front[1..] + " import " + rest;
      BeforeFirst(front[1..], rest);
      assert [front[0]] + front[1..] == front;
    }
  }

  /** The statement `from a.b.c import names`. */
  function ImportText(parts: seq<string>, names: string): string {
    "from " + Join(parts, '.') + " import " + names
  }

  /** `from a.b.c import names` looks the dotted name up in the package roots. */
  lemma FromImportLooksUp(fs: set<Path>, parts: seq<string>, names: string, source: Path, roots: seq<Path>)
    requires Identifiers(parts)
    requires names != "" && Trim(names) && names[|names| - 1] != ';'
    ensures ResolvePython(fs, ImportText(parts, names), source, roots)
         == FindInRoots(fs, Join(parts, '.'), roots)
  {
    var dotted := Join(parts, '.');
    var raw := ImportText(parts, names);
    JoinHasNoSpace(parts);
    assert raw[0] == 'f' && raw[|raw| - 1] == names[|names| - 1];
    assert Strip(raw) == raw && RStripChar(raw, ';') == raw;
    assert raw[..5] == "from " && raw[5..] == dotted + " import " + names;
    BeforeFirst(dotted, names);
    assert Strip(dotted) == dotted && LeadingDots(dotted) == 0;
  }

  /** Another name for the module, and further modules, which the resolver does not look at. */
  ghost predicate Afterthought(tail: string) {
    || tail == ""
    || (tail[0] == ',')
    || exists alias, more :: tail == " as " + alias + more && alias != "" && Trim(alias) && Without(alias, ',')
                             && (more != "" ==> more[0] == ',')
  }

  lemma {:induction false} SplitHead(a: string, more: string)
    requires Without(a, ',') && (more != "" ==> more[0] == ',')
    ensures Split(a + more, ',')[0] == a
  {
    if more == "" {
      assert a + more == a;
      SplitWhole(a, ',');
    } else {
      assert a + more == a + [','] + more[1..];
      SplitCons(a, more[1..], ',');
    }
  }

  lemma {:induction false} BeforeAlias(front: string, rest: string)
    requires forall k :: 0 <= k < |front| ==> !IsSpace(front[k])
    ensures Before(front + " as " + rest, " as ") == Some(front)
  {
    var s := front + " as " + rest;
    if front == "" {
      assert s == " as " + rest;
    } else {
      assert s[0] == front[0] && " as "[0] == ' ';
      assert s[1..] == front[1..] + " as " + rest;
      BeforeAlias(front[1..], rest);
      assert [front[0]] + front[1..] == front;
    }
  }

  lemma {:induction false} NoBefore(s: string, pattern: string)
    requires pattern != "" && IsSpace(pattern[0]) && forall k :: 0 <= k < |s| ==> !IsSpace(s[k])
    ensures Before(s, pattern) == None
  {
    if s != "" {
      NoBefore(s[1..], pattern);
    }
  }

  lemma WithoutBoth(a: string, b: string, c: char)
    requires Without(a, c) && Without(b, c)
    ensures Without(a + b, c)
  {}

  /** The name that `import name ...` is about. */
  lemma FirstNamed(fs: set<Path>, dotted: string, tail: string, roots: seq<Path>)
    requires dotted != "" && Without(dotted, ',') && forall k :: 0 <= k < |dotted| ==> !IsSpace(dotted[k])
    requires Afterthought(tail) && Trim(dotted + tail)
    ensures PlainImport(fs, dotted + tail, roots) == FindInRoots(fs, dotted, roots)
  {
    hide FindInRoots, Split, Strip, Before;
    if tail == "" || tail[0] == ',' {
      SplitHead(dotted, tail);
      NoBefore(dotted, " as ");
      Named(fs, dotted + tail, dotted, dotted, roots);
    } else {
      var alias, more :| tail == " as " + alias + more && alias != "" && Trim(alias) && Without(alias, ',')
                         && (more != "" ==> more[0] == ',');
      AliasNamed(fs, dotted, tail, alias, more, roots);
    }
  }

  lemma AliasNamed(fs: set<Path>, dotted: string, tail: string, alias: string, more: string, roots: seq<Path>)
    requires dotted != "" && Without(dotted, ',') && forall k :: 0 <= k < |dotted| ==> !IsSpace(dotted[k])
    requires tail == " as " + alias + more && alias != "" && Trim(alias) && Without(alias, ',')
    requires (more != "" ==> more[0] == ',') && Trim(dotted + tail)
    ensures PlainImport(fs, dotted + tail, roots) == FindInRoots(fs, dotted, roots)
  {
    hide FindInRoots, Split, Strip, Before;
    var first := dotted + " as " + alias;
    assert dotted + tail == first + more;
    assert Without(" as ", ',');
    WithoutBoth(dotted, " as ", ',');
    WithoutBoth(dotted + " as ", alias, ',');
    SplitHead(first, more);
    assert first[0] == dotted[0] && first[|first| - 1] == alias[|alias| - 1];
    BeforeAlias(dotted, alias);
    Named(fs, dotted + tail, first, dotted, roots);
  }

  lemma Named(fs: set<Path>, text: string, first: string, dotted: string, roots: seq<Path>)
    requires Trim(text) && Split(text, ',')[0] == first && Trim(first)
    requires Before(first, " as ").GetOr(first) == dotted && dotted != "" && Trim(dotted)
    ensures PlainImport(fs, text, roots) == FindInRoots(fs, dotted, roots)
  {
    hide FindInRoots, Split, Strip, Before;
    StripKeeps(text);
    StripKeeps(first);
    StripKeeps(dotted);
  }

  /** `import a.b.c`, with or without `as` and further modules, looks a.b.c up in the package roots. */
  lemma PlainImportLooksUp(fs: set<Path>, parts: seq<string>, tail: string, source: Path, roots: seq<Path>)
    requires Identifiers(parts) && Without(Join(parts, '.'), ',') && Afterthought(tail)
    requires var raw := "import " + (Join(parts, '.') + tail); Trim(raw) && raw[|raw| - 1] != ';'
    ensures ResolvePython(fs, "import " + (Join(parts, '.') + tail), source, roots)
         == FindInRoots(fs, Join(parts, '.'), roots)
  {
    hide PlainImport, Afterthought, FindInRoots;
    var dotted := Join(parts, '.');
    var raw := "import " + (dotted + tail);
    JoinHasNoSpace(parts);
    assert Strip(raw) == raw && RStripChar(raw, ';') == raw;
    assert raw[0] == 'i' && raw[..7] == "import " && raw[7..] == dotted + tail;
    assert (dotted + tail)[0] == dotted[0] && raw[|raw| - 1] == (dotted + tail)[|dotted + tail| - 1];
    FirstNamed(fs, dotted, tail, roots);
  }

  /**
    A module in a package that some counted `__init__.py` belongs to: the import statement
    resolves to the module's own file exactly when no earlier package root offers the same
    dotted name and, for a package, no plain file of that name stands beside it.
   */
  lemma PackagedModuleResolves(fs: set<Path>, repo: Path, inits: seq<Path>, init: Path, parts: seq<string>,
                               isPackage: bool, names: string, source: Path, k: nat)
    requires [INIT] !in fs && forall i :: 0 <= i < |inits| ==> repo <= inits[i]
    requires init in inits && repo <= init && !Excluded(init[|repo|..])
    requires Identifiers(parts) && parts[|parts| - 1] != "__init__"
    requires names != "" && Trim(names) && names[|names| - 1] != ';'
    requires ModuleFile(PackageRoot(fs, init), parts, isPackage) in fs
    requires k < |RootsOf(fs, repo, inits)| && RootsOf(fs, repo, inits)[k] == PackageRoot(fs, init)
    ensures var roots := RootsOf(fs, repo, inits);
            ResolvePython(fs, ImportText(parts, names), source, roots)
              == Some(ModuleFile(roots[k], parts, isPackage))
            <==> (forall j :: 0 <= j < k ==> Hit(fs, roots[j], parts).None?)
                 && (isPackage ==> ModuleFile(roots[k], parts, false) !in fs)
  {
    hide ResolvePython, ModuleFile, RootsOf, PackageRoot, FindInRoots, Hit, Join, ImportText;
    var roots := RootsOf(fs, repo, inits);
    FromImportLooksUp(fs, parts, names, source, roots);
    RootsOfFacts(fs, repo, inits);
    LookupResolves(fs, parts, roots, isPackage, k);
  }

  lemma LookupResolves(fs: set<Path>, parts: seq<string>, roots: seq<Path>, isPackage: bool, k: nat)
    requires Identifiers(parts) && parts[|parts| - 1] != "__init__" && k < |roots|
    requires DistinctPaths(roots)
    requires ModuleFile(roots[k], parts, isPackage) in fs
    ensures FindInRoots(fs, Join(parts, '.'), roots) == Some(ModuleFile(roots[k], parts, isPackage))
       <==> (forall j :: 0 <= j < k ==> Hit(fs, roots[j], parts).None?)
            && (isPackage ==> ModuleFile(roots[k], parts, false) !in fs)
  {
    hide ModuleFile;
    var first := FirstHit(fs, parts, roots, k);
    FirstHitWins(fs, parts, roots, first);
    var plain := ModuleFile(roots[first], parts, false) in fs;
    assert Hit(fs, roots[first], parts) == Some(ModuleFile(roots[first], parts, !plain));
    if ModuleFile(roots[first], parts, !plain) == ModuleFile(roots[k], parts, isPackage) {
      FilesDiffer(roots[first], roots[k], parts, !plain, isPackage);
    }
  }

  /** The root such a package needs is among the discovered ones. */
  lemma PackageRootIsDiscovered(fs: set<Path>, repo: Path, inits: seq<Path>, init: Path) returns (k: nat)
    requires [INIT] !in fs && forall i :: 0 <= i < |inits| ==> repo <= inits[i]
    requires init in inits && repo <= init && !Excluded(init[|repo|..])
    ensures k < |RootsOf(fs, repo, inits)| && RootsOf(fs, repo, inits)[k] == PackageRoot(fs, init)
  {
    RootsAreGiven(fs, repo, inits, |inits|);
    var root, found := PackageRoot(fs, init), RootsUpTo(fs, repo, inits, |inits|);
    if root == repo {
      k := |found|;
    } else {
      var i :| 0 <= i < |inits| && inits[i] == init;
      assert GivenBy(fs, repo, inits, |inits|, root) by { assert Yields(fs, repo, inits[i], root); }
      k :| 0 <= k < |found| && found[k] == root;
    }
  }
}
