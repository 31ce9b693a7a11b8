/**
  From the text `git diff --name-status` prints to the tables: a printed diff between two
  trees parses to a faithful list of changes.
 */
module GitDiff {
  import opened Text
  import opened Walker
  import opened NameStatus
  import opened Index
  import opened IndexHistory

  /** The components of a forward-slash path. */
  function PathOf(text: string): Path { Split(text, '/') }

  /** The components a path is printed from are the ones it is read as. */
  lemma PathsRoundTrip(p: Path)
    requires |p| > 0 && forall i :: 0 <= i < |p| ==> Without(p[i], '/')
    ensures PathOf(Join(p, '/')) == p
  {
    SplitOfJoin(p, '/');
  }

  function ToChanges(cs: seq<FileChange>): (r: seq<Change>)
    ensures |r| == |cs|
    ensures forall i :: 0 <= i < |cs| ==> r[i] == Change(PathOf(cs[i].relativePath), cs[i].status)
  {
    seq(|cs|, i requires 0 <= i < |cs| => Change(PathOf(cs[i].relativePath), cs[i].status))
  }

  // What one entry does to a path.
  predicate Takes(e: DiffEntry, p: Path) { (e.Delete? && p == PathOf(e.path)) || (e.Rename? && p == PathOf(e.source)) }
  predicate Makes(e: DiffEntry, p: Path) { (e.Add? || e.Rename? || e.Copy?) && p == PathOf(e.path) }
  predicate Alters(e: DiffEntry, p: Path) { (e.Modify? || e.TypeChange?) && p == PathOf(e.path) }

  ghost predicate SomeTakes(entries: seq<DiffEntry>, p: Path) { exists i :: 0 <= i < |entries| && Takes(entries[i], p) }
  ghost predicate SomeWrites(entries: seq<DiffEntry>, p: Path) {
    exists i :: 0 <= i < |entries| && (Makes(entries[i], p) || Alters(entries[i], p))
  }

  ghost predicate WrittenOnce(entries: seq<DiffEntry>) {
    forall i, j, p :: 0 <= i < j < |entries| && (Makes(entries[i], p) || Alters(entries[i], p)) ==>
      !(Makes(entries[j], p) || Alters(entries[j], p))
  }

  /** A diff between two commits, as git defines it: each path of the new tree is written at most once. */
  ghost predicate DiffBetween(before: Tree, after: Tree, entries: seq<DiffEntry>) {
    && WrittenOnce(entries)
    && (forall p :: SomeWrites(entries, p) ==> p in after)
    && (forall p :: SomeTakes(entries, p) && !SomeWrites(entries, p) ==> p !in after)
    && (forall p :: !SomeTakes(entries, p) && !SomeWrites(entries, p) ==>
          (p in before <==> p in after) && (p in before ==> before[p] == after[p]))
    && (forall i, p :: 0 <= i < |entries| && Alters(entries[i], p) ==> p in before)
    && (forall i, p :: 0 <= i < |entries| && Makes(entries[i], p) && !SomeTakes(entries, p) ==> p !in before)
  }

  // ------------------------------------------------------------------
  // Which entry a parsed change comes from
  // ------------------------------------------------------------------

  function Parsed(entries: seq<DiffEntry>): seq<Change> { ToChanges(Meanings(entries)) }

  function ParsedOne(e: DiffEntry): seq<Change> { ToChanges(Meaning(e)) }

  lemma NothingParsed()
    ensures Parsed([]) == []
  {}

  lemma ParsedCons(entries: seq<DiffEntry>)
    requires |entries| > 0
    ensures Parsed(entries) == ParsedOne(entries[0]) + Parsed(entries[1..])
  {}

  /** The entry behind each change, in order. */
  lemma {:induction false} EntryBehind(entries: seq<DiffEntry>, k: nat) returns (i: nat)
    requires k < |Parsed(entries)|
    ensures i < |entries| && Parsed(entries)[k] in ParsedOne(entries[i])
    ensures var c := Parsed(entries)[k];
            && (c.status == Deleted ==> Takes(entries[i], c.path))
            && (c.status == Added ==> Makes(entries[i], c.path))
            && (c.status == Modified ==> Alters(entries[i], c.path))
            && c.status != Renamed
  {
    hide PathOf, Parsed;
    if |entries| == 0 {
      NothingParsed();
    }
    ParsedCons(entries);
    if k < |ParsedOne(entries[0])| {
      i := 0;
    } else {
      var j := EntryBehind(entries[1..], k - |ParsedOne(entries[0])|);
      i := j + 1;
    }
  }

  lemma {:induction false} ChangeOf(entries: seq<DiffEntry>, i: nat, p: Path) returns (k: nat)
    requires i < |entries| && (Takes(entries[i], p) || Makes(entries[i], p) || Alters(entries[i], p))
    ensures k < |Parsed(entries)| && Parsed(entries)[k].path == p
    ensures Takes(entries[i], p) ==> Parsed(entries)[k].status == Deleted
    ensures !Takes(entries[i], p) ==> Parsed(entries)[k].status != Deleted
  {
    hide PathOf, Parsed;
    ParsedCons(entries);
    var first := ParsedOne(entries[0]);
    if i == 0 {
      k := if entries[0].Rename? && !Takes(entries[0], p) then 1 else 0;
    } else {
      var j := ChangeOf(entries[1..], i - 1, p);
      k := |first| + j;
    }
  }

  lemma {:induction false} WritesOnce(entries: seq<DiffEntry>)
    requires WrittenOnce(entries)
    ensures ReadOnce(Parsed(entries))
  {
    hide PathOf, Parsed;
    if |entries| == 0 {
      NothingParsed();
    } else {
      ParsedCons(entries);
      var first, rest := ParsedOne(entries[0]), Parsed(entries[1..]);
      WritesOnce(entries[1..]);
      forall i, j | 0 <= i < |first| && 0 <= j < |rest| && first[i].status != Deleted && rest[j].status != Deleted
        ensures first[i].path != rest[j].path
      {
        var m := EntryBehind(entries[1..], j);
        assert entries[1..][m] == entries[m + 1];
        assert Makes(entries[0], first[i].path) || Alters(entries[0], first[i].path);
      }
      ReadOnceJoin(first, rest);
    }
  }

  lemma ReadOnceJoin(a: seq<Change>, b: seq<Change>)
    requires |a| <= 2 && (|a| == 2 ==> a[0].status == Deleted || a[1].status == Deleted) && ReadOnce(b)
    requires forall i, j :: 0 <= i < |a| && 0 <= j < |b| && a[i].status != Deleted && b[j].status != Deleted ==>
               a[i].path != b[j].path
    ensures ReadOnce(a + b)
  {}

  lemma WritesAreReads(entries: seq<DiffEntry>, p: Path)
    ensures Reads(Parsed(entries), |Parsed(entries)|, p) <==> SomeWrites(entries, p)
  {
    var cs := Parsed(entries);
    if Reads(cs, |cs|, p) {
      var k :| 0 <= k < |cs| && cs[k].status != Deleted && cs[k].path == p;
      var i := EntryBehind(entries, k);
    }
    if i :| 0 <= i < |entries| && (Makes(entries[i], p) || Alters(entries[i], p)) {
      if !Takes(entries[i], p) {
        var k := ChangeOf(entries, i, p);
      } else {
        RenameToItself(entries, i, p);
      }
    }
  }

  lemma {:induction false} RenameToItself(entries: seq<DiffEntry>, i: nat, p: Path)
    requires i < |entries| && entries[i].Rename? && p == PathOf(entries[i].path)
    ensures Reads(Parsed(entries), |Parsed(entries)|, p)
  {
    ParsedCons(entries);
    var cs, first := Parsed(entries), ParsedOne(entries[0]);
    if i == 0 {
      assert cs[1].path == p && cs[1].status == Added;
    } else {
      RenameToItself(entries[1..], i - 1, p);
      var rest := Parsed(entries[1..]);
      var k :| 0 <= k < |rest| && rest[k].status != Deleted && rest[k].path == p;
      assert cs[|first| + k] == rest[k];
    }
  }

  lemma TakesAreRemoves(entries: seq<DiffEntry>, p: Path)
    ensures Removes(Parsed(entries), p) <==> SomeTakes(entries, p)
  {
    var cs := Parsed(entries);
    if k :| 0 <= k < |cs| && cs[k].path == p && cs[k].status == Deleted {
      var i := EntryBehind(entries, k);
    }
    if i :| 0 <= i < |entries| && Takes(entries[i], p) {
      var k := ChangeOf(entries, i, p);
    }
  }

  /**
    The end-to-end guarantee behind incremental mode: print the entries of a diff between
    two trees, parse the text, and the changes say faithfully how to get from one tree to
    the other.
   */
  lemma PrintedDiffIsFaithful(before: Tree, after: Tree, entries: seq<DiffEntry>)
    requires forall i :: 0 <= i < |entries| ==> PlainEntry(entries[i])
    requires DiffBetween(before, after, entries)
    ensures Faithful(before, after, ToChanges(Parse(PrintAll(entries))))
  {
    hide *;
    ParsedIs(entries);
    var cs := Parsed(entries);
    assert ReadOnce(cs) by { DiffWritesOnce(before, after, entries); WritesOnce(entries); }
    forall p
      ensures Reads(cs, |cs|, p) <==> SomeWrites(entries, p)
      ensures Removes(cs, p) <==> SomeTakes(entries, p)
    {
      WritesAreReads(entries, p);
      TakesAreRemoves(entries, p);
    }
    forall k | 0 <= k < |cs|
      ensures cs[k].status != Renamed
      ensures cs[k].status == Modified ==> cs[k].path in before
      ensures cs[k].status == Added && !SomeTakes(entries, cs[k].path) ==> cs[k].path !in before
    {
      var i := EntryBehind(entries, k);
      EntryFacts(before, after, entries, i, cs[k].path);
    }
    MakeFaithful(before, after, entries, cs);
  }

  lemma ParsedIs(entries: seq<DiffEntry>)
    requires forall i :: 0 <= i < |entries| ==> PlainEntry(entries[i])
    ensures ToChanges(Parse(PrintAll(entries))) == Parsed(entries)
  {
    hide Parse, PrintAll, ToChanges, PlainEntry;
    ParseInvertsPrint(entries);
  }

  lemma DiffWritesOnce(before: Tree, after: Tree, entries: seq<DiffEntry>)
    requires DiffBetween(before, after, entries)
    ensures WrittenOnce(entries)
  {}

  lemma EntryFacts(before: Tree, after: Tree, entries: seq<DiffEntry>, i: nat, p: Path)
    requires DiffBetween(before, after, entries) && i < |entries|
    ensures Alters(entries[i], p) ==> p in before
    ensures Makes(entries[i], p) && !SomeTakes(entries, p) ==> p !in before
  {
    hide PathOf;
  }

  lemma MakeFaithful(before: Tree, after: Tree, entries: seq<DiffEntry>, cs: seq<Change>)
    requires DiffBetween(before, after, entries) && ReadOnce(cs)
    requires forall p :: Reads(cs, |cs|, p) <==> SomeWrites(entries, p)
    requires forall p :: Removes(cs, p) <==> SomeTakes(entries, p)
    requires forall k :: 0 <= k < |cs| ==> cs[k].status != Renamed
    requires forall k :: 0 <= k < |cs| ==> cs[k].status == Modified ==> cs[k].path in before
    requires forall k :: 0 <= k < |cs| ==> cs[k].status == Added && !SomeTakes(entries, cs[k].path) ==>
               cs[k].path !in before
    ensures Faithful(before, after, cs)
  {
    hide PathOf, Takes, Makes, Alters, SomeTakes, SomeWrites;
    forall p ensures Touches(cs, p) <==> Reads(cs, |cs|, p) || Removes(cs, p) {}
  }
}
