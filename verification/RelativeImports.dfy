/**
  Relative imports: print the statement that leads from one file to another, resolve it,
  and the other file comes back. Python counts dots, TypeScript and JavaScript walk paths.
 */
module RelativeImports {
  import opened Common
  import opened Text
  import opened Walker
  import opened Imports
  import opened PackagedImports

  // ------------------------------------------------------------------
  // Python
  // ------------------------------------------------------------------

  function Dots(n: nat): string { seq(n, _ => '.') }

  /** `from ..a.b import names`; without parts, `from .. import names`. */
  function RelativeText(dots: nat, parts: seq<string>, names: string): string {
    "from " + (Dots(dots) + Join(parts, '.') + " import " + names)
  }

  lemma {:induction false} UpDrops(p: Path, n: nat)
    requires n <= |p|
    ensures Up(p, n) == p[..|p| - n]
  {
    if n > 0 {
      UpDrops(Parent(p), n - 1);
    }
  }

  lemma NothingStripped(s: string)
    requires s != "" && Trim(s) && s[|s| - 1] != ';'
    ensures RStripChar(Strip(s), ';') == s
  {}

  lemma NoBlanks(s: string)
    requires forall k :: 0 <= k < |s| ==> !IsSpace(s[k])
    ensures Strip(s) == s
  {}

  /** A statement that starts with "from " reaches the resolver whole. */
  lemma FromText(fs: set<Path>, body: string, source: Path, roots: seq<Path>)
    requires body != "" && !IsSpace(body[|body| - 1]) && body[|body| - 1] != ';'
    ensures ResolvePython(fs, "from " + body, source, roots) == FromImport(fs, body, source, roots)
  {
    hide Strip, RStripChar, FromImport, PlainImport;
    var raw := "from " + body;
    assert raw[0] == 'f' && !IsSpace('f') && raw[|raw| - 1] == body[|body| - 1];
    NothingStripped(raw);
    assert raw[..5] == "from " && raw[5..] == body;
  }

  /** The name before " import " is untouched by `strip`. */
  lemma FromImportReads(fs: set<Path>, name: string, names: string, source: Path, roots: seq<Path>)
    requires forall k :: 0 <= k < |name| ==> !IsSpace(name[k])
    requires names != "" && Trim(names) && names[|names| - 1] != ';'
    ensures ResolvePython(fs, "from " + (name + " import " + names), source, roots)
         == FromImport(fs, name + " import " + names, source, roots)
    ensures Before(name + " import " + names, " import ") == Some(name) && Strip(name) == name
  {
    hide ResolvePython, FromImport, Before, Strip, IsSpace;
    NoBlanks(name);
    BeforeFirst(name, names);
    var body := name + " import " + names;
    assert body[|body| - 1] == names[|names| - 1];
    FromText(fs, body, source, roots);
  }

  lemma DottedName(dots: nat, parts: seq<string>)
    requires parts == [] || Identifiers(parts)
    ensures var name := Dots(dots) + Join(parts, '.');
            && (forall k :: 0 <= k < |name| ==> !IsSpace(name[k]))
            && LeadingDots(name) == dots <= |name| && name[dots..] == Join(parts, '.')
  {
    hide Identifiers;
    if parts != [] {
      JoinHasNoSpace(parts);
    }
    var name := Dots(dots) + Join(parts, '.');
    assert forall i :: 0 <= i < dots ==> name[i] == '.';
    assert name[dots..] == Join(parts, '.');
    LeadingDotsUnique(name, dots);
  }

  /**
    One dot is the importing file's own directory and each further dot its parent: the
    statement finds what that directory offers for the name, or its `__init__.py`.
   */
  lemma RelativeModuleResolves(fs: set<Path>, source: Path, dots: nat, parts: seq<string>, names: string,
                               roots: seq<Path>)
    requires 1 <= dots <= |source|
    requires parts == [] || Identifiers(parts)
    requires names != "" && Trim(names) && names[|names| - 1] != ';'
    ensures var base := source[..|source| - dots];
            ResolvePython(fs, RelativeText(dots, parts, names), source, roots)
              == if parts != [] then Hit(fs, base, parts)
                 else if base + [INIT] in fs then Some(base + [INIT]) else None
  {
    hide ResolvePython, FromImport, FindUnder, Hit, Dots, Before, Strip, LeadingDots, Up,
         IsSpace, Trim, Join, Identifiers;
    var name, base := Dots(dots) + Join(parts, '.'), source[..|source| - dots];
    DottedName(dots, parts);
    UpDrops(Parent(source), dots - 1);
    assert |Parent(source)| - (dots - 1) == |source| - dots && Parent(source)[..|source| - dots] == base;
    BaseOffers(fs, base, parts);
    FromImportReads(fs, name, names, source, roots);
    DotsLead(fs, name + " import " + names, name, source, roots, dots, Join(parts, '.'), base);
  }

  lemma DotsLead(fs: set<Path>, body: string, name: string, source: Path, roots: seq<Path>, dots: nat, rest: string,
                 base: Path)
    requires Before(body, " import ") == Some(name) && Strip(name) == name
    requires dots > 0 && LeadingDots(name) == dots <= |name| && name[dots..] == rest
    requires Up(Parent(source), dots - 1) == base
    ensures FromImport(fs, body, source, roots) == FindUnder(fs, rest, base)
  {
    hide Before, Strip, LeadingDots, Up, FindUnder, FindInRoots;
  }

  lemma BaseOffers(fs: set<Path>, base: Path, parts: seq<string>)
    requires parts == [] || Identifiers(parts)
    ensures FindUnder(fs, Join(parts, '.'), base)
         == if parts != [] then Hit(fs, base, parts) else if base + [INIT] in fs then Some(base + [INIT]) else None
  {
    if parts != [] {
      FindUnderDotted(fs, base, parts);
    }
  }

  // ------------------------------------------------------------------
  // TypeScript and JavaScript
  // ------------------------------------------------------------------

  /** Ordinary file and directory names. */
  ghost predicate Components(parts: seq<string>) {
    forall i :: 0 <= i < |parts| ==>
      parts[i] != "" && parts[i] != "." && parts[i] != ".." && Without(parts[i], '/')
      && forall k :: 0 <= k < |parts[i]| ==> !IsQuote(parts[i][k])
  }

  function Ups(n: nat): seq<string> { seq(n, _ => "..") }

  /** `./a/b` for no step up, `../../a/b` for two. */
  function Steps(ups: nat, parts: seq<string>): seq<string> {
    if ups == 0 then ["."] + parts else Ups(ups) + parts
  }

  function Specifier(ups: nat, parts: seq<string>): string { Join(Steps(ups, parts), '/') }

  lemma {:induction false} NormaliseDown(base: Path, parts: seq<string>)
    requires Components(parts)
    ensures Normalise(base, parts) == base + parts
    decreases |parts|
  {
    if |parts| > 0 {
      NormaliseDown(base + [parts[0]], parts[1..]);
      assert base + [parts[0]] + parts[1..] == base + parts;
    }
  }

  lemma {:induction false} NormaliseUp(base: Path, ups: nat, parts: seq<string>)
    requires ups <= |base| && Components(parts)
    ensures Normalise(base, Ups(ups) + parts) == base[..|base| - ups] + parts
  {
    hide Components, Ups;
    UpFirst(ups, parts);
    if ups == 0 {
      NormaliseDown(base, parts);
    } else {
      NormaliseUp(Parent(base), ups - 1, parts);
      assert Parent(base)[..|base| - ups] == base[..|base| - ups];
    }
  }

  lemma UpFirst(ups: nat, parts: seq<string>)
    ensures ups == 0 ==> Ups(ups) + parts == parts
    ensures ups > 0 ==> var steps := Ups(ups) + parts;
              |steps| > 0 && steps[0] == ".." && steps[1..] == Ups(ups - 1) + parts
  {}

  lemma StepsLead(base: Path, ups: nat, parts: seq<string>)
    requires ups <= |base| && Components(parts)
    ensures Normalise(base, Steps(ups, parts)) == base[..|base| - ups] + parts
  {
    hide Components;
    NormaliseUp(base, ups, parts);
    if ups == 0 {
      assert Steps(0, parts)[0] == "." && Steps(0, parts)[1..] == parts == Ups(0) + parts;
    }
  }

  lemma {:induction false} UnquotedIs(s: string, n: nat)
    requires n <= |s| && (forall i :: 0 <= i < n ==> !IsQuote(s[i])) && (n < |s| ==> IsQuote(s[n]))
    ensures Unquoted(s) == n
  {
    if n > 0 {
      UnquotedIs(s[1..], n - 1);
    }
  }

  lemma LiteralAtStart(open: char, spec: string, close: char, tail: string)
    requires IsQuote(open) && IsQuote(close) && spec != ""
    requires forall i :: 0 <= i < |spec| ==> !IsQuote(spec[i])
    ensures FirstLiteral([open] + (spec + ([close] + tail))) == Some(spec)
  {
    hide IsQuote, Unquoted;
    var rest := spec + ([close] + tail);
    var raw := [open] + rest;
    assert raw[1..] == rest;
    UnquotedIs(rest, |spec|);
    assert raw[1..1 + |spec|] == rest[..|spec|] == spec;
  }

  /** The first literal of a statement is what stands between its first two quotes. */
  lemma {:induction false} FirstLiteralIs(lead: string, open: char, spec: string, close: char, tail: string)
    requires IsQuote(open) && IsQuote(close) && spec != ""
    requires forall i :: 0 <= i < |lead| ==> !IsQuote(lead[i])
    requires forall i :: 0 <= i < |spec| ==> !IsQuote(spec[i])
    ensures FirstLiteral(lead + ([open] + (spec + ([close] + tail)))) == Some(spec)
    decreases |lead|
  {
    hide IsQuote;
    var rest := spec + ([close] + tail);
    var raw := lead + ([open] + rest);
    if lead == "" {
      assert raw == [open] + rest;
      LiteralAtStart(open, spec, close, tail);
    } else {
      assert raw[0] == lead[0] && raw[1..] == lead[1..] + ([open] + rest);
      FirstLiteralIs(lead[1..], open, spec, close, tail);
    }
  }

  lemma {:induction false} JoinHasNoQuote(parts: seq<string>)
    requires forall i, k :: 0 <= i < |parts| && 0 <= k < |parts[i]| ==> !IsQuote(parts[i][k])
    ensures forall k :: 0 <= k < |Join(parts, '/')| ==> !IsQuote(Join(parts, '/')[k])
  {
    if |parts| > 1 {
      JoinHasNoQuote(parts[1..]);
    }
  }

  lemma SpecifierReads(ups: nat, parts: seq<string>)
    requires Components(parts)
    ensures var spec := Specifier(ups, parts);
            && spec != "" && spec[..1] == "." && Split(spec, '/') == Steps(ups, parts)
            && forall i :: 0 <= i < |spec| ==> !IsQuote(spec[i])
  {
    var steps := Steps(ups, parts);
    assert steps[0][0] == '.' && Join(steps, '/')[0] == '.';
    assert forall i :: 0 <= i < |steps| ==> Without(steps[i], '/');
    assert forall i, k :: 0 <= i < |steps| && 0 <= k < |steps[i]| ==> !IsQuote(steps[i][k]);
    JoinHasNoQuote(steps);
    SplitOfJoin(steps, '/');
  }

  /**
    A relative specifier leads where its steps lead: outside the repository nothing is
    found; inside, the file itself, the first extension that makes it a file, or the first
    index file, in that order.
   */
  lemma RelativeSpecifierResolves(fs: set<Path>, source: Path, repo: Path, ups: nat, parts: seq<string>,
                                  lead: string, open: char, close: char, tail: string)
    requires ups < |source| && Components(parts) && IsQuote(open) && IsQuote(close)
    requires forall i :: 0 <= i < |lead| ==> !IsQuote(lead[i])
    ensures var raw := lead + ([open] + (Specifier(ups, parts) + ([close] + tail)));
            var target := Parent(source)[..|source| - 1 - ups] + parts;
            ResolveTsJs(fs, raw, source, repo)
              == if repo <= target then FirstExisting(fs, Candidates(target)) else None
  {
    hide FirstLiteral, Specifier, Steps, Normalise, Components, Candidates, FirstExisting, Split, IsQuote, ResolveTsJs;
    SpecifierReads(ups, parts);
    FirstLiteralIs(lead, open, Specifier(ups, parts), close, tail);
    StepsLead(Parent(source), ups, parts);
    SpecifierLeads(fs, lead + ([open] + (Specifier(ups, parts) + ([close] + tail))), Specifier(ups, parts),
                   source, repo, Steps(ups, parts));
  }

  lemma SpecifierLeads(fs: set<Path>, raw: string, spec: string, source: Path, repo: Path, steps: seq<string>)
    requires FirstLiteral(raw) == Some(spec) && spec[..1] == "." && Split(spec, '/') == steps
    ensures var target := Normalise(Parent(source), steps);
            ResolveTsJs(fs, raw, source, repo) == if repo <= target then FirstExisting(fs, Candidates(target)) else None
  {
    hide FirstLiteral, Normalise, Candidates, FirstExisting, Split;
  }

  /** A specifier that starts with neither a dot nor a slash names a package: nothing is found. */
  lemma BareSpecifierFindsNothing(fs: set<Path>, source: Path, repo: Path, lead: string, open: char, spec: string,
                                  close: char, tail: string)
    requires IsQuote(open) && IsQuote(close) && spec != "" && spec[0] != '.' && spec[0] != '/'
    requires forall i :: 0 <= i < |lead| ==> !IsQuote(lead[i])
    requires forall i :: 0 <= i < |spec| ==> !IsQuote(spec[i])
    ensures ResolveTsJs(fs, lead + ([open] + (spec + ([close] + tail))), source, repo) == None
  {
    hide FirstLiteral, Normalise, Candidates, IsQuote, Split;
    FirstLiteralIs(lead, open, spec, close, tail);
    assert spec[..1] == [spec[0]] && "."[0] == '.' && "/"[0] == '/';
  }

  /** Which candidate wins: the first one that exists. */
  lemma {:induction false} FirstCandidateWins(fs: set<Path>, candidates: seq<Path>, k: nat)
    requires k < |candidates| && candidates[k] in fs
    requires forall j :: 0 <= j < k ==> candidates[j] !in fs
    ensures FirstExisting(fs, candidates) == Some(candidates[k])
  {
    if k > 0 {
      FirstCandidateWins(fs, candidates[1..], k - 1);
    }
  }

  lemma {:induction false} FirstExistingIs(fs: set<Path>, candidates: seq<Path>) returns (k: nat)
    requires FirstExisting(fs, candidates).Some?
    ensures k < |candidates| && candidates[k] in fs && FirstExisting(fs, candidates) == Some(candidates[k])
    ensures forall j :: 0 <= j < k ==> candidates[j] !in fs
  {
    if candidates[0] in fs {
      k := 0;
    } else {
      k := FirstExistingIs(fs, candidates[1..]);
      k := k + 1;
    }
  }

  /** No name made of the target and one of these endings is a file. */
  ghost predicate NoneExtends(fs: set<Path>, target: Path, n: nat)
    requires |target| > 0 && n <= |TSJS_EXTENSIONS|
  {
    forall i :: 0 <= i < n ==> target[..|target| - 1] + [target[|target| - 1] + TSJS_EXTENSIONS[i]] !in fs
  }

  ghost predicate NoneInside(fs: set<Path>, target: Path, n: nat)
    requires n <= |TSJS_INDEX_NAMES|
  {
    forall i :: 0 <= i < n ==> target + [TSJS_INDEX_NAMES[i]] !in fs
  }

  /** What a path offers: itself, or with the first extension that fits, or its first index file. */
  ghost predicate Offers(fs: set<Path>, target: Path, found: Option<Path>)
    requires |target| > 0
  {
    match found
    case None => target !in fs && NoneExtends(fs, target, |TSJS_EXTENSIONS|)
                 && NoneInside(fs, target, |TSJS_INDEX_NAMES|)
    case Some(f) =>
      f in fs &&
      (|| f == target
       || (target !in fs
           && exists i :: 0 <= i < |TSJS_EXTENSIONS| && NoneExtends(fs, target, i)
                && f == target[..|target| - 1] + [target[|target| - 1] + TSJS_EXTENSIONS[i]])
       || (target !in fs && NoneExtends(fs, target, |TSJS_EXTENSIONS|)
           && exists i :: 0 <= i < |TSJS_INDEX_NAMES| && NoneInside(fs, target, i)
                && f == target + [TSJS_INDEX_NAMES[i]]))
  }

  /** The candidates of a path are tried in this order. */
  lemma CandidatesOffer(fs: set<Path>, target: Path)
    requires |target| > 0
    ensures Offers(fs, target, FirstExisting(fs, Candidates(target)))
  {
    hide FirstExisting;
    var all, m := Candidates(target), |TSJS_EXTENSIONS|;
    var dir, name := target[..|target| - 1], target[|target| - 1];
    assert forall i :: 0 <= i < m ==> all[1 + i] == dir + [name + TSJS_EXTENSIONS[i]];
    assert forall i :: 0 <= i < |TSJS_INDEX_NAMES| ==> all[1 + m + i] == target + [TSJS_INDEX_NAMES[i]];
    if FirstExisting(fs, all).Some? {
      var k := FirstExistingIs(fs, all);
      TriedInVain(fs, target, k);
      if 0 < k <= m {
        assert all[1 + (k - 1)] == all[k];
      } else if m < k {
        assert all[1 + m + (k - 1 - m)] == all[k];
      }
    } else {
      TriedInVain(fs, target, |all|);
    }
  }

  lemma TriedInVain(fs: set<Path>, target: Path, k: nat)
    requires |target| > 0 && 0 <= k <= |Candidates(target)|
    requires forall j :: 0 <= j < k ==> Candidates(target)[j] !in fs
    ensures var m, n := |TSJS_EXTENSIONS|, |TSJS_INDEX_NAMES|;
            && |Candidates(target)| == 1 + m + n
            && (k > 0 ==> target !in fs && NoneExtends(fs, target, if k - 1 <= m then k - 1 else m))
            && (k > 1 + m ==> NoneInside(fs, target, k - 1 - m))
  {
    var all, m := Candidates(target), |TSJS_EXTENSIONS|;
    assert all[0] == target;
    forall i | 0 <= i < m && 1 + i < k
      ensures target[..|target| - 1] + [target[|target| - 1] + TSJS_EXTENSIONS[i]] !in fs
    {
      assert all[1 + i] !in fs;
    }
    forall i | 0 <= i < |TSJS_INDEX_NAMES| && 1 + m + i < k ensures target + [TSJS_INDEX_NAMES[i]] !in fs {
      assert all[1 + m + i] !in fs;
    }
  }

  /** From any file of a repository to any other: the printed path resolves to that very file. */
  lemma RelativePathRoundTrip(fs: set<Path>, repo: Path, common: Path, from: Path, to: Path, lead: string, quote: char,
                              tail: string)
    requires repo <= common && |from| > 0 && Components(to) && IsQuote(quote)
    requires forall i :: 0 <= i < |lead| ==> !IsQuote(lead[i])
    requires common + to in fs
    ensures var raw := lead + ([quote] + (Specifier(|from| - 1, to) + ([quote] + tail)));
            ResolveTsJs(fs, raw, common + from, repo) == Some(common + to)
  {
    hide ResolveTsJs, Components, Specifier, FirstExisting, IsQuote, Candidates, Parent;
    var source, target := common + from, common + to;
    CommonPart(common, from);
    RelativeSpecifierResolves(fs, source, repo, |from| - 1, to, lead, quote, quote, tail);
    ItselfFirst(target);
    FirstCandidateWins(fs, Candidates(target), 0);
    assert repo <= target;
  }

  lemma CommonPart(common: Path, from: Path)
    requires |from| > 0
    ensures var source := common + from; Parent(source)[..|source| - 1 - (|from| - 1)] == common
  {}

  lemma ItselfFirst(target: Path)
    ensures |Candidates(target)| > 0 && Candidates(target)[0] == target
  {}
}
