/**
  Import resolution as a list of candidates. The files an import may mean depend on its
  text, the importing file and the package roots only; it means the first that exists.
 */
module ImportCandidates {
  import opened Common
  import opened Text
  import opened Walker
  import opened Imports

  function UnderCandidates(dotted: string, base: Path): seq<Path> {
    if dotted == "" then [base + [INIT]]
    else
      var parts := Split(dotted, '.');
      var target, last := DivAll(base, parts[..|parts| - 1]), parts[|parts| - 1];
      [target + [last + ".py"], Div(target, last) + [INIT]]
  }

  function RootCandidates(dotted: string, roots: seq<Path>): seq<Path> {
    if |roots| == 0 then [] else UnderCandidates(dotted, roots[0]) + RootCandidates(dotted, roots[1..])
  }

  function FromCandidates(body: string, source: Path, roots: seq<Path>): seq<Path> {
    match Before(body, " import ")
    case None => []
    case Some(front) =>
      var name := Strip(front);
      var dots := LeadingDots(name);
      if dots > 0 then
        LeadingDotsBound(name);
        UnderCandidates(name[dots..], Up(Parent(source), dots - 1))
      else RootCandidates(name, roots)
  }

  function PlainCandidates(rest: string, roots: seq<Path>): seq<Path> {
    var first := Strip(Split(Strip(rest), ',')[0]);
    var name := Strip(Before(first, " as ").GetOr(first));
    if name == "" then [] else RootCandidates(name, roots)
  }

  function PythonCandidates(raw: string, source: Path, roots: seq<Path>): seq<Path> {
    var text := RStripChar(Strip(raw), ';');
    if "from " <= text then FromCandidates(text[5..], source, roots)
    else if "import " <= text then PlainCandidates(text[7..], roots)
    else []
  }

  function TsJsCandidates(raw: string, source: Path, repo: Path): seq<Path> {
    match FirstLiteral(raw)
    case None => []
    case Some(spec) =>
      if spec[..1] != "." && spec[..1] != "/" then []
      else
        var target := Normalise(if spec[..1] == "/" then [] else Parent(source), Split(spec, '/'));
        if repo <= target then Candidates(target) else []
  }

  /** The files an import may mean, best first. */
  function CandidatesOf(raw: string, source: Path, repo: Path, language: string, roots: seq<Path>): seq<Path> {
    if language == "python" then PythonCandidates(raw, source, roots)
    else if language == "typescript" || language == "javascript" then TsJsCandidates(raw, source, repo)
    else []
  }

  lemma {:induction false} FirstOfBoth(fs: set<Path>, a: seq<Path>, b: seq<Path>)
    ensures FirstExisting(fs, a + b)
         == if FirstExisting(fs, a).Some? then FirstExisting(fs, a) else FirstExisting(fs, b)
  {
    if |a| == 0 {
      assert a + b == b;
    } else {
      assert (a + b)[0] == a[0] && (a + b)[1..] == a[1..] + b;
      FirstOfBoth(fs, a[1..], b);
    }
  }

  lemma UnderIsFirst(fs: set<Path>, dotted: string, base: Path)
    ensures FindUnder(fs, dotted, base) == FirstExisting(fs, UnderCandidates(dotted, base))
  {
    hide Split, DivAll, Div;
    var candidates := UnderCandidates(dotted, base);
    assert FirstExisting(fs, candidates[1..]) == if dotted == "" then None
      else if candidates[1] in fs then Some(candidates[1]) else None;
  }

  lemma {:induction false} RootsAreFirst(fs: set<Path>, dotted: string, roots: seq<Path>)
    ensures FindInRoots(fs, dotted, roots) == FirstExisting(fs, RootCandidates(dotted, roots))
  {
    hide FindUnder, UnderCandidates;
    if |roots| > 0 {
      UnderIsFirst(fs, dotted, roots[0]);
      RootsAreFirst(fs, dotted, roots[1..]);
      FirstOfBoth(fs, UnderCandidates(dotted, roots[0]), RootCandidates(dotted, roots[1..]));
    }
  }

  lemma FromIsFirst(fs: set<Path>, body: string, source: Path, roots: seq<Path>)
    ensures FromImport(fs, body, source, roots) == FirstExisting(fs, FromCandidates(body, source, roots))
  {
    hide FindUnder, UnderCandidates, FindInRoots, RootCandidates, Strip, Up;
    match Before(body, " import ") {
      case None =>
      case Some(front) =>
        var name := Strip(front);
        var dots := LeadingDots(name);
        if dots > 0 {
          LeadingDotsBound(name);
          UnderIsFirst(fs, name[dots..], Up(Parent(source), dots - 1));
        } else {
          RootsAreFirst(fs, name, roots);
        }
    }
  }

  lemma PlainIsFirst(fs: set<Path>, rest: string, roots: seq<Path>)
    ensures PlainImport(fs, rest, roots) == FirstExisting(fs, PlainCandidates(rest, roots))
  {
    hide FindInRoots, RootCandidates, Strip, Split, Before;
    var first := Strip(Split(Strip(rest), ',')[0]);
    var name := Strip(Before(first, " as ").GetOr(first));
    RootsAreFirst(fs, name, roots);
  }

  lemma PythonIsFirst(fs: set<Path>, raw: string, source: Path, roots: seq<Path>)
    ensures ResolvePython(fs, raw, source, roots) == FirstExisting(fs, PythonCandidates(raw, source, roots))
  {
    hide FromImport, FromCandidates, PlainImport, PlainCandidates, Strip, RStripChar;
    var text := RStripChar(Strip(raw), ';');
    if "from " <= text {
      FromIsFirst(fs, text[5..], source, roots);
    } else if "import " <= text {
      PlainIsFirst(fs, text[7..], roots);
    }
  }

  lemma TsJsIsFirst(fs: set<Path>, raw: string, source: Path, repo: Path)
    ensures ResolveTsJs(fs, raw, source, repo) == FirstExisting(fs, TsJsCandidates(raw, source, repo))
  {
    hide FirstLiteral, Normalise, Candidates;
  }

  /** In every language an import resolves to the first of its candidates that exists. */
  lemma ResolveIsTheFirst(fs: set<Path>, raw: string, source: Path, repo: Path, language: string, roots: seq<Path>)
    ensures Resolve(fs, raw, source, repo, language, roots)
         == FirstExisting(fs, CandidatesOf(raw, source, repo, language, roots))
  {
    hide ResolvePython, ResolveTsJs, PythonCandidates, TsJsCandidates;
    PythonIsFirst(fs, raw, source, roots);
    TsJsIsFirst(fs, raw, source, repo);
  }
}
