/**
  Which files have rows, told by their names: the skip lists, the test directories and the
  endings that stand for a language, for a full rebuild and after any history.
 */
module IndexFilter {
  import opened Common
  import opened Walker
  import opened Index
  import opened IndexHistory

  ghost predicate Ends(name: string, ending: string) {
    exists front :: name == front + ending
  }

  /** A name that has something before its ending. */
  ghost predicate Stemmed(name: string, ending: string) {
    exists stem :: stem != "" && name == stem + ending
  }

  ghost predicate IsSource(name: string, language: string) {
    || (language == "python" && Stemmed(name, ".py"))
    || (language == "typescript" && Stemmed(name, ".ts"))
    || (language == "javascript"
        && (Stemmed(name, ".js") || Stemmed(name, ".mjs") || Stemmed(name, ".cjs") || Stemmed(name, ".jsx")))
  }

  /** The files the documentation of the walk promises to index. */
  ghost predicate InScope(p: Path, includeTests: bool, language: string) {
    && |p| > 0 && IsSource(p[|p| - 1], language)
    && (forall suffix :: suffix in SKIP_SUFFIXES ==> !Ends(p[|p| - 1], suffix))
    && !Has(p, SKIP_DIRS)
    && (includeTests || !Has(p, TEST_DIRS))
  }

  // ------------------------------------------------------------------
  // The filter
  // ------------------------------------------------------------------

  lemma EndsIs(name: string, ending: string)
    ensures EndsWith(name, ending) <==> Ends(name, ending)
  {
    if EndsWith(name, ending) {
      assert name == name[..|name| - |ending|] + ending;
    }
  }

  lemma {:induction false} LastDotIs(s: string, i: nat)
    requires i < |s| && s[i] == '.' && forall k :: i < k < |s| ==> s[k] != '.'
    ensures LastDot(s) == i
  {
    if i < |s| - 1 {
      LastDotIs(s[..|s| - 1], i);
    }
  }

  lemma SuffixIs(name: string, ending: string)
    requires |ending| > 1 && ending[0] == '.' && forall k :: 0 < k < |ending| ==> ending[k] != '.'
    ensures Suffix(name) == ending <==> Stemmed(name, ending)
  {
    if Suffix(name) == ending {
      var stem := name[..LastDot(name)];
      assert stem != "" && name == stem + ending;
    }
    if stem :| stem != "" && name == stem + ending {
      LastDotIs(name, |stem|);
      assert name[|stem|..] == ending;
    }
  }

  lemma LanguageIs(name: string, language: string)
    ensures LanguageByExt(Suffix(name)) == Some(language) <==> IsSource(name, language)
  {
    hide Suffix, Stemmed;
    SuffixIs(name, ".py");
    SuffixIs(name, ".ts");
    SuffixIs(name, ".js");
    SuffixIs(name, ".mjs");
    SuffixIs(name, ".cjs");
    SuffixIs(name, ".jsx");
  }

  lemma SkippedExactlyWhen(p: Path, includeTests: bool)
    requires |p| > 0
    ensures IsSkipped(p, includeTests)
       <==> Has(p, SKIP_DIRS) || (!includeTests && Has(p, TEST_DIRS))
            || exists suffix :: suffix in SKIP_SUFFIXES && Ends(p[|p| - 1], suffix)
  {
    hide EndsWith, Ends;
    var name := p[|p| - 1];
    forall i | 0 <= i < |SKIP_SUFFIXES| ensures EndsWith(name, SKIP_SUFFIXES[i]) <==> Ends(name, SKIP_SUFFIXES[i]) {
      EndsIs(name, SKIP_SUFFIXES[i]);
    }
    assert forall i :: 0 <= i < |SKIP_SUFFIXES| ==> SKIP_SUFFIXES[i] in SKIP_SUFFIXES;
  }

  /** The filter lets through exactly the files in scope, each with its language. */
  lemma IndexableExactlyWhen(p: Path, includeTests: bool, language: string)
    ensures Indexable(p, includeTests) == Some(language) <==> InScope(p, includeTests, language)
  {
    hide IsSkipped, LanguageByExt, Suffix, IsSource, Ends, Has;
    if |p| > 0 {
      LanguageIs(p[|p| - 1], language);
      SkippedExactlyWhen(p, includeTests);
    } else {
      NoName();
    }
  }

  lemma NoName()
    ensures LanguageByExt(Suffix("")) == None
  {}

  // ------------------------------------------------------------------
  // The rows
  // ------------------------------------------------------------------

  /** What the row of a file in scope holds. */
  ghost predicate RowTells(cfg: Config, tree: Tree, p: Path, row: Row, sha: Option<string>) {
    && InScope(p, cfg.includeTests, row.language)
    && p in tree && tree[p].text == Some(row.content)
    && row.sha == sha
    && row.structure == cfg.parse(row.content, row.language)
    && row.lineCount == LineCount(row.content)
  }

  lemma RowTellsIt(cfg: Config, tree: Tree, p: Path, row: Row, sha: Option<string>)
    requires IsRowOf(cfg, tree, p, row, sha)
    ensures RowTells(cfg, tree, p, row, sha)
  {
    hide Indexable, InScope;
    IndexableExactlyWhen(p, cfg.includeTests, row.language);
  }

  lemma ReadableExactlyWhen(cfg: Config, tree: Tree, p: Path)
    ensures Readable(cfg, tree, p)
       <==> p in tree && tree[p].text.Some? && exists language :: InScope(p, cfg.includeTests, language)
  {
    hide Indexable, InScope;
    if Indexable(p, cfg.includeTests).Some? {
      IndexableExactlyWhen(p, cfg.includeTests, Indexable(p, cfg.includeTests).value);
    }
    if language :| InScope(p, cfg.includeTests, language) {
      IndexableExactlyWhen(p, cfg.includeTests, language);
    }
  }

  /**
    A full rebuild has a row for exactly the readable files within the size limit that are
    in scope: named like a source file of some language, under no skipped directory and,
    unless tests are wanted, under no test directory. The row tells language, content,
    structure and commit.
   */
  lemma FullIndexHoldsExactly(cfg: Config, w: World, head: Option<string>)
    requires WellFormedWorld(cfg, w)
    ensures var rows := FullIndex(cfg, w, head).rows;
            && (forall p :: p in rows <==>
                  p in w.tree && w.tree[p].text.Some? && w.tree[p].size <= 200_000
                  && exists language :: InScope(p, cfg.includeTests, language))
            && (forall p :: p in rows ==> RowTells(cfg, w.tree, p, rows[p], head))
            && (forall p :: p in rows ==> !Has(p, SKIP_DIRS) && (!cfg.includeTests ==> !Has(p, TEST_DIRS)))
  {
    hide FullIndex, IsRowOf, Indexable, IsSource, Has;
    FullIndexRows(cfg, w, head);
    var rows := FullIndex(cfg, w, head).rows;
    forall p ensures WalkTakes(cfg, w.tree, p) <==> Readable(cfg, w.tree, p) && w.tree[p].size <= 200_000 {}
    forall p { ReadableExactlyWhen(cfg, w.tree, p); }
    forall p | p in rows ensures RowTells(cfg, w.tree, p, rows[p], head) {
      RowTellsIt(cfg, w.tree, p, rows[p], head);
    }
  }

  /** Asking for tests adds exactly the files below a test directory and changes no other row. */
  lemma TestsAreAdded(cfg: Config, w: World, head: Option<string>)
    requires WellFormedWorld(cfg, w) && !cfg.includeTests
    ensures var without, all := FullIndex(cfg, w, head).rows, FullIndex(cfg.(includeTests := true), w, head).rows;
            && (forall p :: p in without ==> p in all && all[p] == without[p])
            && (forall p :: p in all ==> (p in without <==> !Has(p, TEST_DIRS)))
  {
    hide FullIndex, IsSource, Has;
    var wanted := cfg.(includeTests := true);
    assert WellFormedWorld(wanted, w);
    FullIndexHoldsExactly(cfg, w, head);
    FullIndexHoldsExactly(wanted, w, head);
    var without, all := FullIndex(cfg, w, head).rows, FullIndex(wanted, w, head).rows;
    forall p | p in all ensures p in without <==> !Has(p, TEST_DIRS) {
      assert RowTells(wanted, w.tree, p, all[p], head);
      assert InScope(p, false, all[p].language) <==> !Has(p, TEST_DIRS);
    }
    forall p | p in without ensures p in all && all[p] == without[p] {
      assert RowTells(cfg, w.tree, p, without[p], head);
      assert InScope(p, true, without[p].language);
      OneLanguage(p, true, without[p].language, all[p].language);
    }
  }

  lemma OneLanguage(p: Path, includeTests: bool, a: string, b: string)
    requires InScope(p, includeTests, a) && InScope(p, includeTests, b)
    ensures a == b
  {
    hide InScope;
    IndexableExactlyWhen(p, includeTests, a);
    IndexableExactlyWhen(p, includeTests, b);
  }

  /** After any history, too: rows are the files in scope, size aside for those re-read since. */
  lemma HistoryHoldsExactly(cfg: Config, commits: map<string, Tree>, visits: seq<Visit>)
    requires |visits| > 0 && GoodHistory(cfg, commits, visits)
    ensures var acc, tree := RunHistory(cfg, visits), visits[|visits| - 1].world.tree;
            && acc.Some?
            && (forall p :: p in acc.value.tables.rows <==>
                  p in tree && tree[p].text.Some? && (tree[p].size <= 200_000 || p in acc.value.since)
                  && exists language :: InScope(p, cfg.includeTests, language))
            && (forall p :: p in acc.value.tables.rows ==>
                  RowTells(cfg, tree, p, acc.value.tables.rows[p], acc.value.tables.rows[p].sha))
            && (forall p :: p in acc.value.tables.rows ==>
                  !Has(p, SKIP_DIRS) && (!cfg.includeTests ==> !Has(p, TEST_DIRS)))
  {
    hide RunHistory, IsRowOf, Readable, IsSource, Has;
    EveryHistory(cfg, commits, visits);
    var acc, tree := RunHistory(cfg, visits).value, visits[|visits| - 1].world.tree;
    forall p { ReadableExactlyWhen(cfg, tree, p); }
    forall p | p in acc.tables.rows ensures RowTells(cfg, tree, p, acc.tables.rows[p], acc.tables.rows[p].sha) {
      RowTellsIt(cfg, tree, p, acc.tables.rows[p], acc.tables.rows[p].sha);
    }
  }
}
