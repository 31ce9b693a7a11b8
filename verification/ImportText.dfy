/**
  How the text of an import statement is read, for any text: what stands before a keyword,
  the first quoted literal, the steps of a path, and what around a statement is ignored.
 */
module ImportText {
  import opened Common
  import opened Names
  import opened Text
  import opened Walker
  import opened Imports
  import opened RelativeImports

  // ------------------------------------------------------------------
  // Keywords
  // ------------------------------------------------------------------

  /** The pattern is cut off at its first occurrence, or does not occur. */
  lemma {:induction false} BeforeIsFirst(s: string, pattern: string)
    ensures match Before(s, pattern)
            case None => forall k :: 0 <= k <= |s| ==> !(pattern <= s[k..])
            case Some(front) => front + pattern <= s && forall k :: 0 <= k < |front| ==> !(pattern <= s[k..])
  {
    assert s[0..] == s;
    if !(pattern <= s) && s != "" {
      BeforeIsFirst(s[1..], pattern);
      assert forall k :: 0 < k <= |s| ==> s[k..] == s[1..][k - 1..];
    }
  }

  // ------------------------------------------------------------------
  // Around the statement
  // ------------------------------------------------------------------

  lemma {:induction false} RStripsAll(s: string, c: char, n: nat)
    requires s == "" || s[|s| - 1] != c
    ensures RStripChar(s + seq(n, _ => c), c) == s
  {
    var t := s + seq(n, _ => c);
    if n == 0 {
      assert t == s;
    } else {
      assert t[..|t| - 1] == s + seq(n - 1, _ => c);
      RStripsAll(s, c, n - 1);
    }
  }

  lemma StripInside(l: string, s: string, r: string)
    requires AllSpace(l) && AllSpace(r)
    ensures Strip(l + s + r) == Strip(s)
  {
    hide Strip, IsSpace;
    StripIsTrimmed(s, Strip(s));
    var l', r' :| AllSpace(l') && AllSpace(r') && s == l' + Strip(s) + r';
    assert l + s + r == (l + l') + Strip(s) + (r' + r);
    assert AllSpace(l + l') && AllSpace(r' + r);
    StripIsTrimmed(l + s + r, Strip(s));
  }

  /** White space around a Python import and semicolons behind it change nothing. */
  lemma OutsideIsIgnored(fs: set<Path>, l: string, statement: string, n: nat, r: string, source: Path, roots: seq<Path>)
    requires AllSpace(l) && AllSpace(r) && statement != "" && Trim(statement) && statement[|statement| - 1] != ';'
    ensures ResolvePython(fs, l + (statement + seq(n, _ => ';')) + r, source, roots)
         == ResolvePython(fs, statement, source, roots)
  {
    hide FromImport, PlainImport, Strip, RStripChar;
    var inside := statement + seq(n, _ => ';');
    assert inside[0] == statement[0];
    assert inside[|inside| - 1] == if n == 0 then statement[|statement| - 1] else ';';
    StripInside(l, inside, r);
    StripKeeps(inside);
    StripKeeps(statement);
    RStripsAll(statement, ';', n);
    RStripsAll(statement, ';', 0);
    assert statement + seq(0, _ => ';') == statement;
  }

  // ------------------------------------------------------------------
  // Literals
  // ------------------------------------------------------------------

  /** spec stands between two quotes, the first of them at i. */
  ghost predicate LiteralAt(raw: string, i: nat, spec: string) {
    && spec != "" && i + 1 + |spec| < |raw| && IsQuote(raw[i]) && IsQuote(raw[i + 1 + |spec|])
    && raw[i + 1..i + 1 + |spec|] == spec && forall k :: 0 <= k < |spec| ==> !IsQuote(spec[k])
  }

  ghost predicate LeftmostAt(raw: string, i: nat, spec: string) {
    LiteralAt(raw, i, spec) && forall j: nat, other :: j < i ==> !LiteralAt(raw, j, other)
  }

  lemma LiteralInTail(raw: string, i: nat, spec: string)
    requires raw != ""
    ensures LiteralAt(raw, i + 1, spec) <==> LiteralAt(raw[1..], i, spec)
  {
    hide IsQuote;
    if i + 2 + |spec| < |raw| {
      SliceOfTail(raw, i + 2, i + 2 + |spec|);
    }
  }

  lemma SliceOfTail(raw: string, a: nat, b: nat)
    requires 1 <= a <= b <= |raw|
    ensures raw[a..b] == raw[1..][a - 1..b - 1]
  {
    var s, t := raw[a..b], raw[1..][a - 1..b - 1];
    assert |s| == |t| && forall k :: 0 <= k < |s| ==> s[k] == raw[a + k] == t[k];
  }

  lemma LiteralInFront(raw: string, spec: string)
    requires raw != ""
    ensures var n := Unquoted(raw[1..]);
            LiteralAt(raw, 0, spec) <==> IsQuote(raw[0]) && n > 0 && 1 + n < |raw| && spec == raw[1..1 + n]
  {
    hide IsQuote;
    var rest := raw[1..];
    if LiteralAt(raw, 0, spec) {
      assert forall k :: 0 <= k < |spec| ==> rest[k] == spec[k];
      assert rest[|spec|] == raw[1 + |spec|];
      UnquotedIs(rest, |spec|);
    }
    var n := Unquoted(rest);
    assert raw[1..1 + n] == rest[..n];
  }

  /** The specifier is the leftmost non-empty run of other characters between two quotes. */
  lemma {:induction false} FirstLiteralIsLeftmost(raw: string)
    ensures match FirstLiteral(raw)
            case None => forall i: nat, spec :: !LiteralAt(raw, i, spec)
            case Some(spec) => exists i: nat :: LeftmostAt(raw, i, spec)
  {
    hide LiteralAt, IsQuote;
    if raw == "" {
      NoLiteral();
    } else {
      FirstLiteralIsLeftmost(raw[1..]);
      forall spec { LiteralInFront(raw, spec); }
      forall i: nat, spec ensures i > 0 ==> (LiteralAt(raw, i, spec) <==> LiteralAt(raw[1..], i - 1, spec)) {
        if i > 0 {
          LiteralInTail(raw, i - 1, spec);
        }
      }
      var n := Unquoted(raw[1..]);
      if IsQuote(raw[0]) && n > 0 && 1 + n < |raw| {
        assert FirstLiteral(raw) == Some(raw[1..1 + n]) && LeftmostAt(raw, 0, raw[1..1 + n]);
      } else if FirstLiteral(raw[1..]).Some? {
        var spec := FirstLiteral(raw[1..]).value;
        var i: nat :| LeftmostAt(raw[1..], i, spec);
        assert FirstLiteral(raw) == Some(spec) && LeftmostAt(raw, i + 1, spec);
      }
    }
  }

  lemma NoLiteral()
    ensures forall i: nat, spec :: !LiteralAt("", i, spec)
  {}

  // ------------------------------------------------------------------
  // Paths
  // ------------------------------------------------------------------

  function WithoutBlanks(parts: seq<string>): seq<string> {
    if |parts| == 0 then [] else (if parts[0] == "" then [] else [parts[0]]) + WithoutBlanks(parts[1..])
  }

  lemma {:induction false} BlanksVanish(p: Path, parts: seq<string>)
    ensures DivAll(p, parts) == p + WithoutBlanks(parts)
    decreases |parts|
  {
    if |parts| > 0 {
      BlanksVanish(Div(p, parts[0]), parts[1..]);
    }
  }

  /**
    Any dotted name under a directory: blank parts are skipped on the way, and its last part
    names a plain file, or else a package.
   */
  lemma DottedTells(fs: set<Path>, parts: seq<string>, base: Path)
    requires |parts| > 0 && parts != [""] && forall i :: 0 <= i < |parts| ==> Without(parts[i], '.')
    ensures var n := |parts| - 1;
            var file, package := base + WithoutBlanks(parts[..n]) + [parts[n] + ".py"],
                                 base + WithoutBlanks(parts) + [INIT];
            FindUnder(fs, Join(parts, '.'), base)
              == if file in fs then Some(file) else if package in fs then Some(package) else None
  {
    hide Split, Join, WithoutBlanks, DivAll, Div;
    var n := |parts| - 1;
    SplitOfJoin(parts, '.');
    assert Join(parts, '.') != "" by { JoinsToNothing(parts); }
    BlanksVanish(base, parts[..n]);
    BlanksVanish(base, parts);
    DivLast(base, parts);
  }

  lemma JoinsToNothing(parts: seq<string>)
    requires |parts| > 0
    ensures Join(parts, '.') == "" ==> parts == [""]
  {}

  lemma {:induction false} DivLast(p: Path, parts: seq<string>)
    requires |parts| > 0
    ensures DivAll(p, parts) == Div(DivAll(p, parts[..|parts| - 1]), parts[|parts| - 1])
    decreases |parts|
  {
    hide Div;
    if |parts| > 1 {
      DivLast(Div(p, parts[0]), parts[1..]);
      assert parts[1..][..|parts| - 2] == parts[..|parts| - 1][1..];
    }
  }

  lemma {:induction false} NormaliseAppend(base: Path, a: seq<string>, b: seq<string>)
    ensures Normalise(base, a + b) == Normalise(Normalise(base, a), b)
    decreases |a|
  {
    if a == [] {
      assert a + b == b;
    } else {
      assert (a + b)[0] == a[0] && (a + b)[1..] == a[1..] + b;
      NormaliseAppend(StepTo(base, a[0]), a[1..], b);
    }
  }

  /** Blank steps and single dots stay where they are; a name and two dots lead back. */
  lemma StepsCancel(base: Path, a: seq<string>, name: string, b: seq<string>)
    requires Components([name])
    ensures Normalise(base, a + [""] + b) == Normalise(base, a + b)
    ensures Normalise(base, a + ["."] + b) == Normalise(base, a + b)
    ensures Normalise(base, a + [name, ".."] + b) == Normalise(base, a + b)
  {
    hide Components;
    var here := Normalise(base, a);
    NormaliseAppend(base, a, b);
    NormaliseAppend(base, a + [""], b);
    NormaliseAppend(base, a, [""]);
    NormaliseAppend(base, a + ["."], b);
    NormaliseAppend(base, a, ["."]);
    NormaliseAppend(base, a + [name, ".."], b);
    NormaliseAppend(base, a, [name, ".."]);
    OneStep(here, name);
  }

  lemma OneStep(here: Path, name: string)
    requires Components([name])
    ensures Normalise(here, [""]) == here && Normalise(here, ["."]) == here && Normalise(here, [name, ".."]) == here
  {
    assert [name][0] == name;
    assert [name, ".."][1..] == [".."];
    assert Normalise(here + [name], [".."]) == Normalise(here, []);
  }

  /** A specifier with a leading slash starts at the root of the file system. */
  lemma AbsoluteSpecifierResolves(fs: set<Path>, source: Path, repo: Path, parts: seq<string>,
                                  lead: string, open: char, close: char, tail: string)
    requires parts != [] && Components(parts) && IsQuote(open) && IsQuote(close)
    requires forall i :: 0 <= i < |lead| ==> !IsQuote(lead[i])
    ensures ResolveTsJs(fs, lead + ([open] + ("/" + Join(parts, '/') + ([close] + tail))), source, repo)
         == if repo <= parts then FirstExisting(fs, Candidates(parts)) else None
  {
    hide FirstLiteral, Normalise, Candidates, FirstExisting, Split, ResolveTsJs;
    var spec := "/" + Join(parts, '/');
    assert forall i, k :: 0 <= i < |parts| && 0 <= k < |parts[i]| ==> !IsQuote(parts[i][k]);
    JoinHasNoQuote(parts);
    assert forall i :: 0 <= i < |spec| ==> !IsQuote(spec[i]);
    FirstLiteralIs(lead, open, spec, close, tail);
    assert forall i :: 0 <= i < |parts| ==> Without(parts[i], '/');
    SplitOfJoin(parts, '/');
    assert spec == "" + ['/'] + Join(parts, '/');
    SplitCons("", Join(parts, '/'), '/');
    FromTheRoot(parts);
    AbsoluteLeads(fs, lead + ([open] + (spec + ([close] + tail))), spec, source, repo, [""] + parts);
  }

  lemma FromTheRoot(parts: seq<string>)
    requires Components(parts)
    ensures Normalise([], [""] + parts) == parts
  {
    hide Components;
    NormaliseDown([], parts);
    assert ([""] + parts)[1..] == parts && [] + parts == parts;
  }

  lemma AbsoluteLeads(fs: set<Path>, raw: string, spec: string, source: Path, repo: Path, steps: seq<string>)
    requires FirstLiteral(raw) == Some(spec) && spec[..1] == "/" && Split(spec, '/') == steps
    ensures var target := Normalise([], steps);
            ResolveTsJs(fs, raw, source, repo) == if repo <= target then FirstExisting(fs, Candidates(target)) else None
  {
    hide FirstLiteral, Normalise, Candidates, FirstExisting, Split;
  }
}
