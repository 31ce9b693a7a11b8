/**
  The Python part of `gita.views.concept.concept_view`: merge the full-text and the
  semantic candidates, score them, sort, and keep the best. SQL results are inputs.
 */
module Concept {
  import opened Common

  /** A row of the full-text half; `symbols` counts the file's symbols that match the query. */
  datatype FtsRow = FtsRow(path: string, symbols: nat, rank: real)

  /** A row of the semantic half, already within the distance ceiling. */
  datatype SemanticRow = SemanticRow(path: string, symbols: nat, distance: real)

  datatype Candidate = Candidate(path: string, symbols: nat, ftsRank: real, normalized: real, vectorScore: real)

  datatype Match = Match(path: string, rank: real)

  // ------------------------------------------------------------------
  // Normalising and merging
  // ------------------------------------------------------------------

  function MaxRank(rows: seq<FtsRow>): (m: real)
    requires |rows| > 0
    ensures forall i :: 0 <= i < |rows| ==> rows[i].rank <= m
    ensures exists i :: 0 <= i < |rows| && rows[i].rank == m
  {
    if |rows| == 1 then rows[0].rank
    else
      var rest := MaxRank(rows[..|rows| - 1]);
      if rest < rows[|rows| - 1].rank then rows[|rows| - 1].rank else rest
  }

  /** `fts_rank_normalized` of a row, 0.0 when the ranks are not rescaled. */
  function Normalized(rows: seq<FtsRow>, row: FtsRow): real {
    if |rows| == 0 || MaxRank(rows) <= 0.0 then 0.0 else row.rank / MaxRank(rows)
  }

  /** `merged[path] = ...` on an insertion-ordered dict. */
  function Put(merged: seq<Candidate>, c: Candidate): seq<Candidate> {
    if |merged| == 0 then [c]
    else if merged[0].path == c.path then [c] + merged[1..]
    else [merged[0]] + Put(merged[1..], c)
  }

  function Get(merged: seq<Candidate>, path: string): (c: Option<Candidate>)
    ensures c.Some? ==> c.value in merged && c.value.path == path
    ensures c.None? ==> forall i :: 0 <= i < |merged| ==> merged[i].path != path
  {
    if |merged| == 0 then None else if merged[0].path == path then Some(merged[0]) else Get(merged[1..], path)
  }

  function MergeFts(rows: seq<FtsRow>, n: nat): seq<Candidate>
    requires n <= |rows|
  {
    if n == 0 then []
    else
      var r := rows[n - 1];
      Put(MergeFts(rows, n - 1), Candidate(r.path, r.symbols, r.rank, Normalized(rows, r), 0.0))
  }

  /** Cosine distance as a similarity. */
  function Similarity(distance: real): real {
    var s := 1.0 - distance / 2.0;
    if s < 0.0 then 0.0 else s
  }

  /** The candidate that one semantic row puts into the merge. */
  function SemanticCandidate(earlier: seq<Candidate>, r: SemanticRow): (c: Candidate)
    ensures c.path == r.path
  {
    match Get(earlier, r.path)
    case Some(c) => c.(vectorScore := Similarity(r.distance))
    case None => Candidate(r.path, r.symbols, 0.0, 0.0, Similarity(r.distance))
  }

  function MergeSemantic(merged: seq<Candidate>, rows: seq<SemanticRow>, n: nat): seq<Candidate>
    requires n <= |rows|
  {
    if n == 0 then merged
    else
      var earlier := MergeSemantic(merged, rows, n - 1);
      Put(earlier, SemanticCandidate(earlier, rows[n - 1]))
  }

  function Merge(fts: seq<FtsRow>, semantic: seq<SemanticRow>): seq<Candidate> {
    MergeSemantic(MergeFts(fts, |fts|), semantic, |semantic|)
  }

  // ------------------------------------------------------------------
  // Scoring
  // ------------------------------------------------------------------

  /** `round(x, 4)`: to the nearest multiple of 1/10000, a tie to the even one. */
  function Round4(x: real): real {
    Nearest(x * 10000.0) as real / 10000.0
  }

  function Nearest(y: real): int {
    var n := (y + 0.5).Floor;
    if n as real == y + 0.5 && n % 2 == 1 then n - 1 else n
  }

  function Boost(symbols: nat): real {
    var b := symbols as real * 0.3;
    if b > 1.0 then 1.0 else b
  }

  function Rank(c: Candidate, hybrid: bool): real {
    var combined := if hybrid then 0.5 * c.normalized + 0.5 * c.vectorScore else c.ftsRank;
    Round4(combined + Boost(c.symbols))
  }

  function Matches(merged: seq<Candidate>, hybrid: bool): (ms: seq<Match>)
    ensures |ms| == |merged|
    ensures forall i :: 0 <= i < |ms| ==> ms[i] == Match(merged[i].path, Rank(merged[i], hybrid))
  {
    seq(|merged|, i requires 0 <= i < |merged| => Match(merged[i].path, Rank(merged[i], hybrid)))
  }

  // ------------------------------------------------------------------
  // Sorting: by descending rank, ties in insertion order
  // ------------------------------------------------------------------

  function InsertLast(ms: seq<Match>, m: Match): seq<Match> {
    if |ms| == 0 || ms[0].rank < m.rank then [m] + ms else [ms[0]] + InsertLast(ms[1..], m)
  }

  /** `matches.sort(key=rank, reverse=True)`, which is stable. */
  function SortByRank(ms: seq<Match>): seq<Match> {
    if |ms| == 0 then [] else InsertLast(SortByRank(ms[..|ms| - 1]), ms[|ms| - 1])
  }

  lemma SortOfNone()
    ensures SortByRank([]) == []
  {}

  ghost predicate Descending(ms: seq<Match>) {
    forall i, j :: 0 <= i < j < |ms| ==> ms[i].rank >= ms[j].rank
  }

  function OfRank(ms: seq<Match>, rank: real): seq<Match> {
    if |ms| == 0 then [] else (if ms[0].rank == rank then [ms[0]] else []) + OfRank(ms[1..], rank)
  }

  lemma {:induction false} InsertLastSorts(ms: seq<Match>, m: Match)
    requires Descending(ms)
    ensures Descending(InsertLast(ms, m))
    ensures multiset(InsertLast(ms, m)) == multiset(ms) + multiset{m}
  {
    if |ms| > 0 && ms[0].rank >= m.rank {
      assert ms == [ms[0]] + ms[1..];
      InsertLastSorts(ms[1..], m);
      HeadOutranks(ms, m, InsertLast(ms[1..], m));
    }
  }

  lemma HeadOutranks(ms: seq<Match>, m: Match, tail: seq<Match>)
    requires |ms| > 0 && Descending(ms) && ms[0].rank >= m.rank
    requires multiset(tail) == multiset(ms[1..]) + multiset{m} && Descending(tail)
    ensures Descending([ms[0]] + tail)
  {
    forall i | 0 <= i < |tail| ensures ms[0].rank >= tail[i].rank {
      assert tail[i] in multiset(tail);
      assert tail[i] == m || tail[i] in ms[1..];
    }
  }

  lemma OfRankCons(x: Match, rest: seq<Match>, rank: real)
    ensures OfRank([x] + rest, rank) == (if x.rank == rank then [x] else []) + OfRank(rest, rank)
  {
    assert ([x] + rest)[1..] == rest;
  }

  lemma {:induction false} InsertLastIsLast(ms: seq<Match>, m: Match, rank: real)
    requires Descending(ms)
    ensures OfRank(InsertLast(ms, m), rank) == OfRank(ms, rank) + (if m.rank == rank then [m] else [])
  {
    hide OfRank;
    if |ms| == 0 || ms[0].rank < m.rank {
      OfRankCons(m, ms, rank);
      if m.rank == rank {
        NoneOfRank(ms, rank);
      }
    } else {
      InsertLastIsLast(ms[1..], m, rank);
      OfRankCons(ms[0], ms[1..], rank);
      OfRankCons(ms[0], InsertLast(ms[1..], m), rank);
      assert ms == [ms[0]] + ms[1..];
    }
  }

  lemma {:induction false} NoneOfRank(ms: seq<Match>, rank: real)
    requires forall i :: 0 <= i < |ms| ==> ms[i].rank < rank
    ensures OfRank(ms, rank) == []
  {
    if |ms| > 0 {
      NoneOfRank(ms[1..], rank);
    }
  }

  lemma {:induction false} OfRankAppend(ms: seq<Match>, m: Match, rank: real)
    ensures OfRank(ms + [m], rank) == OfRank(ms, rank) + (if m.rank == rank then [m] else [])
  {
    hide OfRank;
    OfRankNone(rank);
    if |ms| == 0 {
      OfRankCons(m, [], rank);
      assert [] + [m] == [m] + [];
    } else {
      OfRankAppend(ms[1..], m, rank);
      OfRankCons(ms[0], ms[1..], rank);
      OfRankCons(ms[0], ms[1..] + [m], rank);
      assert ms == [ms[0]] + ms[1..] && ms + [m] == [ms[0]] + (ms[1..] + [m]);
    }
  }

  lemma OfRankNone(rank: real)
    ensures OfRank([], rank) == []
  {}

  /** The sort is a descending arrangement that keeps ties in insertion order. */
  lemma {:induction false} SortIsStable(ms: seq<Match>, rank: real)
    ensures Descending(SortByRank(ms))
    ensures multiset(SortByRank(ms)) == multiset(ms)
    ensures OfRank(SortByRank(ms), rank) == OfRank(ms, rank)
  {
    if |ms| > 0 {
      var front, last := ms[..|ms| - 1], ms[|ms| - 1];
      assert ms == front + [last];
      SortIsStable(front, rank);
      InsertLastSorts(SortByRank(front), last);
      InsertLastIsLast(SortByRank(front), last, rank);
      OfRankAppend(front, last, rank);
    }
  }

  // ------------------------------------------------------------------
  // The view
  // ------------------------------------------------------------------

  function View(fts: seq<FtsRow>, semantic: seq<SemanticRow>, hybrid: bool, limit: nat): seq<Match> {
    var sorted := SortByRank(Matches(Merge(fts, semantic), hybrid));
    if |sorted| <= limit then sorted else sorted[..limit]
  }

  method ConceptView(fts: seq<FtsRow>, semantic: seq<SemanticRow>, hybrid: bool, limit: nat)
    returns (matches: seq<Match>, total: nat)
    ensures matches == View(fts, semantic, hybrid, limit)
    ensures total == |Merge(fts, semantic)|
  {
    hide Rank, Normalized, Similarity, SortByRank, Put;
    var merged: seq<Candidate> := [];
    for n := 0 to |fts|
      invariant merged == MergeFts(fts, n)
    {
      var r := fts[n];
      merged := Put(merged, Candidate(r.path, r.symbols, r.rank, Normalized(fts, r), 0.0));
    }
    for n := 0 to |semantic|
      invariant merged == MergeSemantic(MergeFts(fts, |fts|), semantic, n)
    {
      var r := semantic[n];
      var existing := Get(merged, r.path);
      if existing.Some? {
        merged := Put(merged, existing.value.(vectorScore := Similarity(r.distance)));
      } else {
        merged := Put(merged, Candidate(r.path, r.symbols, 0.0, 0.0, Similarity(r.distance)));
      }
    }
    total := |merged|;
    if total == 0 {
      assert Matches(merged, hybrid) == [];
      SortOfNone();
      return [], 0;
    }
    matches := [];
    for n := 0 to |merged|
      invariant matches == Matches(merged, hybrid)[..n]
    {
      matches := matches + [Match(merged[n].path, Rank(merged[n], hybrid))];
    }
    assert Matches(merged, hybrid)[..|merged|] == Matches(merged, hybrid);
    matches := SortByRank(matches);
    if |matches| > limit {
      matches := matches[..limit];
    }
  }

  // ------------------------------------------------------------------
  // Properties
  // ------------------------------------------------------------------

  ghost predicate DistinctPaths(cs: seq<Candidate>) {
    forall i, j :: 0 <= i < j < |cs| ==> cs[i].path != cs[j].path
  }

  ghost predicate Covers(cs: seq<Candidate>, path: string) {
    exists i :: 0 <= i < |cs| && cs[i].path == path
  }

  /** Both scores lie between 0 and 1. */
  ghost predicate Scaled(cs: seq<Candidate>) {
    forall i :: 0 <= i < |cs| ==> 0.0 <= cs[i].normalized <= 1.0 && 0.0 <= cs[i].vectorScore <= 1.0
  }

  lemma {:induction false} PutFacts(merged: seq<Candidate>, c: Candidate, path: string)
    requires DistinctPaths(merged)
    ensures DistinctPaths(Put(merged, c))
    ensures Covers(Put(merged, c), path) <==> Covers(merged, path) || path == c.path
    ensures Scaled(merged) && Scaled([c]) ==> Scaled(Put(merged, c))
  {
    if |merged| == 0 {
      assert Put(merged, c)[0] == c;
    } else if merged[0].path == c.path {
      PutInPlace(merged, c, path);
    } else {
      var rest := Put(merged[1..], c);
      PutFacts(merged[1..], c, path);
      ConsFacts(merged[0], rest, path);
      ConsFacts(merged[0], merged[1..], path);
      assert merged == [merged[0]] + merged[1..];
      forall j | 0 <= j < |rest| ensures rest[j].path != merged[0].path {
        PutFacts(merged[1..], c, rest[j].path);
        assert Covers(rest, rest[j].path);
      }
    }
  }

  lemma PutInPlace(merged: seq<Candidate>, c: Candidate, path: string)
    requires |merged| > 0 && merged[0].path == c.path && DistinctPaths(merged)
    ensures DistinctPaths([c] + merged[1..])
    ensures Covers([c] + merged[1..], path) <==> Covers(merged, path)
    ensures Scaled(merged) && Scaled([c]) ==> Scaled([c] + merged[1..])
  {
    var all := [c] + merged[1..];
    assert forall i :: 0 <= i < |merged| ==> all[i].path == merged[i].path;
    assert [c][0] == c;
  }

  lemma ConsFacts(c: Candidate, rest: seq<Candidate>, path: string)
    ensures Covers([c] + rest, path) <==> c.path == path || Covers(rest, path)
    ensures Scaled([c] + rest) <==> Scaled([c]) && Scaled(rest)
  {
    var all := [c] + rest;
    assert all[0] == c && forall i :: 0 <= i < |rest| ==> all[i + 1] == rest[i];
    if Covers(rest, path) {
      var i :| 0 <= i < |rest| && rest[i].path == path;
      assert all[i + 1].path == path;
    }
    assert [c][0] == c;
  }

  lemma {:induction false} MergedFtsPaths(rows: seq<FtsRow>, n: nat, path: string)
    requires n <= |rows|
    ensures DistinctPaths(MergeFts(rows, n))
    ensures Covers(MergeFts(rows, n), path) <==> exists i :: 0 <= i < n && rows[i].path == path
  {
    hide Put, DistinctPaths, Covers, Normalized;
    if n == 0 {
      NothingMerged(path);
    } else {
      var r := rows[n - 1];
      MergedFtsPaths(rows, n - 1, path);
      PutFacts(MergeFts(rows, n - 1), Candidate(r.path, r.symbols, r.rank, Normalized(rows, r), 0.0), path);
    }
  }

  lemma NothingMerged(path: string)
    ensures DistinctPaths([]) && !Covers([], path) && Scaled([])
  {}

  lemma {:induction false} MergedFtsScaled(rows: seq<FtsRow>, n: nat)
    requires n <= |rows| && forall i :: 0 <= i < |rows| ==> rows[i].rank >= 0.0
    ensures Scaled(MergeFts(rows, n))
  {
    hide Put, DistinctPaths, Covers, Scaled, Normalized;
    if n == 0 {
      NothingMerged("");
    } else {
      var r := rows[n - 1];
      var c := Candidate(r.path, r.symbols, r.rank, Normalized(rows, r), 0.0);
      MergedFtsScaled(rows, n - 1);
      MergedFtsPaths(rows, n - 1, "");
      NormalizedIsScaled(rows, n - 1);
      OneScaled(c);
      PutFacts(MergeFts(rows, n - 1), c, "");
    }
  }

  lemma OneScaled(c: Candidate)
    ensures Scaled([c]) <==> 0.0 <= c.normalized <= 1.0 && 0.0 <= c.vectorScore <= 1.0
  {
    assert [c][0] == c;
  }

  lemma NormalizedIsScaled(rows: seq<FtsRow>, i: nat)
    requires i < |rows| && rows[i].rank >= 0.0
    ensures 0.0 <= Normalized(rows, rows[i]) <= 1.0
  {
    if MaxRank(rows) > 0.0 {
      Quotient(rows[i].rank, MaxRank(rows));
    }
  }

  lemma Quotient(a: real, b: real)
    requires 0.0 <= a <= b && b > 0.0
    ensures 0.0 <= a / b <= 1.0
  {}

  lemma {:induction false} MergedSemanticPaths(merged: seq<Candidate>, rows: seq<SemanticRow>, n: nat, path: string)
    requires n <= |rows| && DistinctPaths(merged)
    ensures DistinctPaths(MergeSemantic(merged, rows, n))
    ensures Covers(MergeSemantic(merged, rows, n), path)
       <==> Covers(merged, path) || exists i :: 0 <= i < n && rows[i].path == path
  {
    hide Put, DistinctPaths, Covers, Similarity;
    if n > 0 {
      var earlier, r := MergeSemantic(merged, rows, n - 1), rows[n - 1];
      MergedSemanticPaths(merged, rows, n - 1, path);
      PutFacts(earlier, SemanticCandidate(earlier, r), path);
    }
  }

  lemma {:induction false} MergedSemanticScaled(merged: seq<Candidate>, rows: seq<SemanticRow>, n: nat)
    requires n <= |rows| && DistinctPaths(merged) && Scaled(merged)
    requires forall i :: 0 <= i < |rows| ==> rows[i].distance >= 0.0
    ensures Scaled(MergeSemantic(merged, rows, n))
  {
    hide Put, DistinctPaths, Covers, SemanticCandidate, Similarity;
    if n > 0 {
      var earlier, r := MergeSemantic(merged, rows, n - 1), rows[n - 1];
      MergedSemanticScaled(merged, rows, n - 1);
      MergedSemanticPaths(merged, rows, n - 1, "");
      SemanticIsScaled(earlier, r);
      PutFacts(earlier, SemanticCandidate(earlier, r), "");
    }
  }

  lemma SemanticIsScaled(earlier: seq<Candidate>, r: SemanticRow)
    requires Scaled(earlier) && r.distance >= 0.0
    ensures Scaled([SemanticCandidate(earlier, r)])
  {
    OneScaled(SemanticCandidate(earlier, r));
  }

  /** Every candidate is merged once, whichever half found it. */
  lemma MergeIsTheUnion(fts: seq<FtsRow>, semantic: seq<SemanticRow>, path: string)
    ensures DistinctPaths(Merge(fts, semantic))
    ensures Covers(Merge(fts, semantic), path)
       <==> (exists i :: 0 <= i < |fts| && fts[i].path == path)
            || (exists i :: 0 <= i < |semantic| && semantic[i].path == path)
  {
    hide DistinctPaths, Covers, MergeFts, MergeSemantic;
    MergedFtsPaths(fts, |fts|, path);
    MergedSemanticPaths(MergeFts(fts, |fts|), semantic, |semantic|, path);
  }

  ghost predicate OncePerFile(fts: seq<FtsRow>, semantic: seq<SemanticRow>) {
    && (forall i, j :: 0 <= i < j < |fts| ==> fts[i].path != fts[j].path)
    && (forall i, j :: 0 <= i < j < |semantic| ==> semantic[i].path != semantic[j].path)
  }

  /** The last of the first n rows that is about this path. */
  function LastOf<T>(rows: seq<T>, pathOf: T -> string, n: nat, path: string): (row: Option<T>)
    requires n <= |rows|
    ensures row.Some? ==> pathOf(row.value) == path && row.value in rows[..n]
    ensures row.None? ==> forall i :: 0 <= i < n ==> pathOf(rows[i]) != path
  {
    if n == 0 then None
    else if pathOf(rows[n - 1]) == path then Some(rows[n - 1])
    else LastOf(rows, pathOf, n - 1, path)
  }

  const FTS_PATH: FtsRow -> string := (r: FtsRow) => r.path
  const SEMANTIC_PATH: SemanticRow -> string := (r: SemanticRow) => r.path

  function FromFts(rows: seq<FtsRow>, row: Option<FtsRow>): Option<Candidate> {
    match row
    case None => None
    case Some(f) => Some(Candidate(f.path, f.symbols, f.rank, Normalized(rows, f), 0.0))
  }

  function WithSemantic(found: Option<Candidate>, row: Option<SemanticRow>): Option<Candidate> {
    match row
    case None => found
    case Some(s) =>
      match found
      case None => Some(Candidate(s.path, s.symbols, 0.0, 0.0, Similarity(s.distance)))
      case Some(c) => Some(c.(vectorScore := Similarity(s.distance)))
  }

  lemma {:induction false} GetPut(merged: seq<Candidate>, c: Candidate, path: string)
    ensures Get(Put(merged, c), path) == if path == c.path then Some(c) else Get(merged, path)
  {
    if |merged| > 0 && merged[0].path != c.path {
      GetPut(merged[1..], c, path);
      assert Put(merged, c)[1..] == Put(merged[1..], c);
    }
  }

  lemma {:induction false} MergedFts(rows: seq<FtsRow>, n: nat, path: string)
    requires n <= |rows|
    ensures Get(MergeFts(rows, n), path) == FromFts(rows, LastOf(rows, FTS_PATH, n, path))
  {
    hide Normalized, Get, Put;
    if n == 0 {
      GetNone(path);
    } else {
      var r := rows[n - 1];
      MergedFts(rows, n - 1, path);
      GetPut(MergeFts(rows, n - 1), Candidate(r.path, r.symbols, r.rank, Normalized(rows, r), 0.0), path);
    }
  }

  lemma GetNone(path: string)
    ensures Get([], path) == None
  {}

  lemma {:induction false} MergedSemantic(merged: seq<Candidate>, rows: seq<SemanticRow>, n: nat, path: string)
    requires n <= |rows|
    requires forall i, j :: 0 <= i < j < |rows| ==> rows[i].path != rows[j].path
    ensures Get(MergeSemantic(merged, rows, n), path)
         == WithSemantic(Get(merged, path), LastOf(rows, SEMANTIC_PATH, n, path))
  {
    hide Similarity, Get, Put;
    if n > 0 {
      var earlier, r := MergeSemantic(merged, rows, n - 1), rows[n - 1];
      MergedSemantic(merged, rows, n - 1, path);
      MergedSemantic(merged, rows, n - 1, r.path);
      assert LastOf(rows, SEMANTIC_PATH, n - 1, r.path).None?;
      match Get(earlier, r.path) {
        case Some(c) => GetPut(earlier, c.(vectorScore := Similarity(r.distance)), path);
        case None => GetPut(earlier, Candidate(r.path, r.symbols, 0.0, 0.0, Similarity(r.distance)), path);
      }
    }
  }

  /** A merged file keeps what each half knows about it, and zero for a half that missed it. */
  lemma MergeKeepsBothHalves(fts: seq<FtsRow>, semantic: seq<SemanticRow>, path: string)
    requires OncePerFile(fts, semantic)
    ensures Get(Merge(fts, semantic), path)
         == WithSemantic(FromFts(fts, LastOf(fts, FTS_PATH, |fts|, path)),
                         LastOf(semantic, SEMANTIC_PATH, |semantic|, path))
  {
    hide Normalized, Similarity, Get;
    MergedFts(fts, |fts|, path);
    MergedSemantic(MergeFts(fts, |fts|), semantic, |semantic|, path);
  }

  /**
    The view is the best `limit` of the union of the candidates: what it returns and what it
    omits are together all the matches, the returned ones are in descending order with ties
    as inserted, and no omitted file outranks a returned one.
   */
  lemma ViewIsTheTop(fts: seq<FtsRow>, semantic: seq<SemanticRow>, hybrid: bool, limit: nat, rank: real)
    returns (omitted: seq<Match>)
    ensures var view, all := View(fts, semantic, hybrid, limit), Matches(Merge(fts, semantic), hybrid);
            && |view| == (if |all| <= limit then |all| else limit)
            && multiset(view) + multiset(omitted) == multiset(all)
            && OfRank(view + omitted, rank) == OfRank(all, rank)
            && Descending(view)
            && forall i, j :: 0 <= i < |view| && 0 <= j < |omitted| ==> view[i].rank >= omitted[j].rank
  {
    hide Matches, Merge, OfRank, SortByRank;
    var all := Matches(Merge(fts, semantic), hybrid);
    SortIsStable(all, rank);
    var sorted := SortByRank(all);
    assert |sorted| == |multiset(sorted)| == |multiset(all)| == |all|;
    omitted := sorted[|View(fts, semantic, hybrid, limit)|..];
    assert sorted == View(fts, semantic, hybrid, limit) + omitted;
  }

  // ------------------------------------------------------------------
  // What the scores mean
  // ------------------------------------------------------------------

  /** Rescaling keeps the proportions of the ranks, and the best one becomes 1. */
  lemma NormalizedKeepsProportions(rows: seq<FtsRow>, i: nat, j: nat)
    requires i < |rows| && j < |rows|
    ensures Normalized(rows, rows[i]) * rows[j].rank == Normalized(rows, rows[j]) * rows[i].rank
    ensures (exists k :: 0 <= k < |rows| && rows[k].rank > 0.0)
              && (forall k :: 0 <= k < |rows| ==> rows[k].rank <= rows[i].rank)
            ==> Normalized(rows, rows[i]) == 1.0
    ensures (forall k :: 0 <= k < |rows| ==> rows[k].rank <= 0.0) ==> Normalized(rows, rows[i]) == 0.0
  {
    var m := MaxRank(rows);
    if m > 0.0 {
      Proportions(rows[i].rank, rows[j].rank, m);
    }
  }

  lemma Proportions(a: real, b: real, m: real)
    requires m > 0.0
    ensures a / m * b == b / m * a && m / m == 1.0
  {}

  /** Distances 0 and 2 are similarities 1 and 0, even steps in between, and nothing is below 0. */
  lemma SimilarityIsLinear(a: real, b: real)
    ensures Similarity(0.0) == 1.0 && Similarity(2.0) == 0.0
    ensures 0.0 <= a <= 2.0 && 0.0 <= b <= 2.0 ==> 2.0 * (Similarity(a) - Similarity(b)) == b - a
    ensures a >= 2.0 ==> Similarity(a) == 0.0
  {}

  /** The nearest whole number; of two equally near ones the even one. */
  lemma NearestIsClose(y: real)
    ensures y - 0.5 <= Nearest(y) as real <= y + 0.5
    ensures Nearest(y) as real == y - 0.5 || Nearest(y) as real == y + 0.5 ==> Nearest(y) % 2 == 0
  {}

  lemma NearestIsMonotone(y: real, z: real)
    requires y <= z
    ensures Nearest(y) <= Nearest(z)
  {
    var n, m := (y + 0.5).Floor, (z + 0.5).Floor;
    assert n <= m;
    if m as real == z + 0.5 && y < z {
      assert n < m;
    }
  }

  lemma NearestShifts(y: real)
    ensures Nearest(y + 3000.0) == Nearest(y) + 3000
  {
    var n := (y + 0.5).Floor;
    assert (y + 3000.0 + 0.5).Floor == n + 3000;
    assert (n + 3000) % 2 == n % 2;
  }

  lemma RoundTells(x: real, y: real)
    ensures x - 0.00005 <= Round4(x) <= x + 0.00005
    ensures x <= y ==> Round4(x) <= Round4(y)
    ensures Round4(x + 0.3) == Round4(x) + 0.3
  {
    hide Nearest;
    NearestIsClose(x * 10000.0);
    if x <= y {
      NearestIsMonotone(x * 10000.0, y * 10000.0);
    }
    assert (x + 0.3) * 10000.0 == x * 10000.0 + 3000.0;
    NearestShifts(x * 10000.0);
  }

  /**
    A rank counts both halves of a hybrid search alike, or the full-text rank alone; each of
    the first three matching symbols adds 0.3, a fourth completes 1, and no further one
    counts; it never falls when a score rises, and is right to half a ten-thousandth.
   */
  lemma RanksTell(c: Candidate, better: Candidate, hybrid: bool)
    ensures var boost := Rank(c, hybrid) - Rank(c.(symbols := 0), hybrid);
            && (c.symbols <= 3 ==> boost == 0.3 * c.symbols as real)
            && (c.symbols >= 4 ==> Rank(c, hybrid) == Rank(c.(symbols := 4), hybrid))
            && boost <= 1.0001
    ensures Rank(c, true) == Rank(c.(normalized := c.vectorScore, vectorScore := c.normalized), true)
    ensures Rank(c, true) == Rank(c.(ftsRank := better.ftsRank), true)
    ensures Rank(c, false) == Rank(c.(normalized := better.normalized, vectorScore := better.vectorScore), false)
    ensures var score := if hybrid then (c.normalized + c.vectorScore) / 2.0 else c.ftsRank;
            score - 0.00005 <= Rank(c.(symbols := 0), hybrid) <= score + 0.00005
    ensures (c.normalized <= better.normalized && c.vectorScore <= better.vectorScore && c.ftsRank <= better.ftsRank
             && c.symbols <= better.symbols) ==>
              Rank(c, hybrid) <= Rank(better, hybrid)
  {
    hide Round4;
    var x := if hybrid then 0.5 * c.normalized + 0.5 * c.vectorScore else c.ftsRank;
    var y := if hybrid then 0.5 * better.normalized + 0.5 * better.vectorScore else better.ftsRank;
    assert x + 0.0 == x;
    RoundTells(x, x);
    RoundTells(x + 0.3, x);
    RoundTells(x + 0.3 + 0.3, x);
    RoundTells(x + 1.0, x);
    RoundTells(x + Boost(c.symbols), y + Boost(better.symbols));
    assert 0.5 * c.normalized + 0.5 * c.vectorScore == 0.5 * c.vectorScore + 0.5 * c.normalized;
  }

  lemma RoundStaysInside(x: real)
    requires 0.0 <= x <= 2.0
    ensures 0.0 <= Round4(x) <= 2.0
  {
    NearestIsClose(x * 10000.0);
    assert 0 <= Nearest(x * 10000.0) <= 20000;
  }

  /** With ranks and distances as Postgres gives them, a hybrid rank lies in [0, 2]. */
  lemma HybridRanksAreBounded(fts: seq<FtsRow>, semantic: seq<SemanticRow>)
    requires forall i :: 0 <= i < |fts| ==> fts[i].rank >= 0.0
    requires forall i :: 0 <= i < |semantic| ==> semantic[i].distance >= 0.0
    ensures forall i :: 0 <= i < |Merge(fts, semantic)| ==> 0.0 <= Rank(Merge(fts, semantic)[i], true) <= 2.0
  {
    hide Round4;
    MergedFtsPaths(fts, |fts|, "");
    MergedFtsScaled(fts, |fts|);
    MergedSemanticScaled(MergeFts(fts, |fts|), semantic, |semantic|);
    forall i | 0 <= i < |Merge(fts, semantic)| ensures 0.0 <= Rank(Merge(fts, semantic)[i], true) <= 2.0 {
      var c := Merge(fts, semantic)[i];
      RoundStaysInside(0.5 * c.normalized + 0.5 * c.vectorScore + Boost(c.symbols));
    }
  }
}
