/**
  `gita.indexer.diff.parse_name_status`: the output of `git diff --name-status` as a list
  of file changes, and the printer it inverts.
 */
module NameStatus {
  import opened Common
  import opened Names
  import opened Text

  datatype Status = Added | Modified | Deleted | Renamed

  datatype FileChange = FileChange(relativePath: string, status: Status, previousPath: Option<string>)

  // ------------------------------------------------------------------
  // The parser
  // ------------------------------------------------------------------

  /** `str.splitlines`: a line break ends a line, "\r\n" counts once. */
  function SplitLines(s: string): seq<string>
    decreases |s|
  {
    if s == "" then []
    else
      var n := LineLength(s);
      if n == |s| then [s]
      else
        var skip := if s[n] == '\r' && n + 1 < |s| && s[n + 1] == '\n' then n + 2 else n + 1;
        [s[..n]] + SplitLines(s[skip..])
  }

  function LineLength(s: string): (n: nat)
    ensures n <= |s|
    ensures forall i :: 0 <= i < n ==> !IsLineBreak(s[i])
    ensures n < |s| ==> IsLineBreak(s[n])
  {
    if s == "" || IsLineBreak(s[0]) then 0 else 1 + LineLength(s[1..])
  }

  /** `path.replace("\\", "/")`. */
  function ForwardSlashes(s: string): (r: string)
    ensures |r| == |s| && forall i :: 0 <= i < |s| ==> r[i] == if s[i] == '\\' then '/' else s[i]
  {
    seq(|s|, i requires 0 <= i < |s| => if s[i] == '\\' then '/' else s[i])
  }

  function PathField(part: string): string { ForwardSlashes(Strip(part)) }

  /** _STATUS_MAP. */
  function StatusOf(letter: string): Option<Status> {
    if letter == "A" || letter == "C" then Some(Added)
    else if letter == "M" || letter == "T" then Some(Modified)
    else if letter == "D" then Some(Deleted)
    else if letter == "R" then Some(Renamed)
    else None
  }

  /** What one line contributes; a line that is blank, short or of unknown status, nothing. */
  function ChangesOfLine(line: string): seq<FileChange> {
    if Strip(line) == "" then []
    else
      var parts := Split(line, '\t');
      if |parts| < 2 then []
      else
        var rawStatus := Strip(parts[0]);
        var letter := if rawStatus == "" then "" else rawStatus[..1];
        match StatusOf(letter)
        case None => []
        case Some(status) =>
          if status == Renamed && |parts| >= 3 then
            [FileChange(PathField(parts[1]), Deleted, None),
             FileChange(PathField(parts[2]), Added, Some(PathField(parts[1])))]
          else if letter == "C" && |parts| >= 3 then [FileChange(PathField(parts[2]), Added, None)]
          else [FileChange(PathField(parts[1]), status, None)]
  }

  function ChangesOfLines(lines: seq<string>): seq<FileChange> {
    if |lines| == 0 then []
    else ChangesOfLines(lines[..|lines| - 1]) + ChangesOfLine(lines[|lines| - 1])
  }

  function Parse(output: string): seq<FileChange> {
    ChangesOfLines(SplitLines(Strip(output)))
  }

  /** `parse_name_status`. */
  method ParseNameStatus(output: string) returns (changes: seq<FileChange>)
    ensures changes == Parse(output)
  {
    changes := [];
    var lines := SplitLines(Strip(output));
    for n := 0 to |lines|
      invariant changes == ChangesOfLines(lines[..n])
    {
      var line := lines[n];
      assert lines[..n + 1][..n] == lines[..n];
      if Strip(line) == "" {
        continue;
      }
      var parts := Split(line, '\t');
      if |parts| < 2 {
        continue;
      }
      var rawStatus := Strip(parts[0]);
      var letter := if rawStatus == "" then "" else rawStatus[..1];
      var status := StatusOf(letter);
      if status.None? {
        continue;
      }
      if status.value == Renamed && |parts| >= 3 {
        var oldPath, newPath := PathField(parts[1]), PathField(parts[2]);
        changes := changes + [FileChange(oldPath, Deleted, None), FileChange(newPath, Added, Some(oldPath))];
      } else if letter == "C" && |parts| >= 3 {
        changes := changes + [FileChange(PathField(parts[2]), Added, None)];
      } else {
        changes := changes + [FileChange(PathField(parts[1]), status.value, None)];
      }
    }
    assert lines[..|lines|] == lines;
  }

  // ------------------------------------------------------------------
  // Any line
  // ------------------------------------------------------------------

  /** A field as a path: without outer white space, and with forward slashes. */
  ghost predicate IsPathOf(part: string, path: string) {
    exists inside :: Trimmed(part, inside) && |path| == |inside|
      && forall i :: 0 <= i < |path| ==> path[i] == if inside[i] == '\\' then '/' else inside[i]
  }

  lemma FieldIsPath(part: string)
    ensures IsPathOf(part, PathField(part))
  {
    hide Strip, Trimmed;
    StripIsTrimmed(part, Strip(part));
  }

  /**
    What a line gives, whatever it holds: nothing without a tab, or if its first field does
    not start with one of six letters; two changes for a rename with two paths; otherwise one,
    about the second path of a copy and the first path of anything else.
   */
  lemma LineTells(line: string, fields: seq<string>)
    requires |fields| >= 1 && line == Join(fields, '\t')
    requires forall i :: 0 <= i < |fields| ==> Without(fields[i], '\t')
    ensures var cs, first := ChangesOfLine(line), Strip(fields[0]);
            var known := |fields| >= 2 && first != "" && first[0] in "ACDMRT";
            && (!known ==> cs == [])
            && (known && first[0] == 'R' && |fields| >= 3 ==>
                  && |cs| == 2 && cs[0].status == Deleted && cs[1].status == Added
                  && IsPathOf(fields[1], cs[0].relativePath) && IsPathOf(fields[2], cs[1].relativePath)
                  && cs[0].previousPath == None && cs[1].previousPath == Some(cs[0].relativePath))
            && (known && !(first[0] == 'R' && |fields| >= 3) ==>
                  && |cs| == 1 && cs[0].previousPath == None
                  && IsPathOf(fields[if first[0] == 'C' && |fields| >= 3 then 2 else 1], cs[0].relativePath)
                  && (cs[0].status == Added <==> first[0] in "AC") && (cs[0].status == Deleted <==> first[0] == 'D')
                  && (cs[0].status == Modified <==> first[0] in "MT"))
  {
    hide Strip, PathField, IsPathOf, Join, Split;
    SplitOfJoin(fields, '\t');
    forall i | 0 <= i < |fields| ensures IsPathOf(fields[i], PathField(fields[i])) {
      FieldIsPath(fields[i]);
    }
    var first := Strip(fields[0]);
    if first != "" {
      assert first[..1] == [first[0]];
      JoinStarts(fields, '\t');
      NotBlank(line, fields[0]);
      LettersAre(first);
    }
  }

  lemma JoinStarts(fields: seq<string>, sep: char)
    requires |fields| >= 1
    ensures fields[0] <= Join(fields, sep)
  {}

  lemma LettersAre(first: string)
    requires first != ""
    ensures StatusOf(first[..1]).Some? <==> first[0] in "ACDMRT"
  {}

  lemma NotBlank(line: string, front: string)
    requires front <= line && Strip(front) != ""
    ensures Strip(line) != ""
  {
    if Strip(line) == "" {
      StripIsTrimmed(line, "");
      var l, r :| AllSpace(l) && AllSpace(r) && line == l + "" + r;
      assert AllSpace(line) && AllSpace(front) && AllSpace("");
      assert front == front + "" + "";
      StripIsTrimmed(front, "");
    }
  }

  // ------------------------------------------------------------------
  // What git prints
  // ------------------------------------------------------------------

  /** One entry of a diff between two commits. Renames and copies carry a similarity score. */
  datatype DiffEntry =
    | Add(path: string)
    | Modify(path: string)
    | TypeChange(path: string)
    | Delete(path: string)
    | Rename(score: nat, source: string, path: string)
    | Copy(score: nat, source: string, path: string)

  function Print(e: DiffEntry): string {
    match e
    case Add(p) => "A\t" + p
    case Modify(p) => "M\t" + p
    case TypeChange(p) => "T\t" + p
    case Delete(p) => "D\t" + p
    case Rename(score, s, p) => "R" + Digits(score) + "\t" + s + "\t" + p
    case Copy(score, s, p) => "C" + Digits(score) + "\t" + s + "\t" + p
  }

  function PrintAll(entries: seq<DiffEntry>): string {
    if |entries| == 0 then "" else Print(entries[0]) + "\n" + PrintAll(entries[1..])
  }

  /** The changes an entry stands for. */
  function Meaning(e: DiffEntry): seq<FileChange> {
    match e
    case Add(p) => [FileChange(p, Added, None)]
    case Modify(p) => [FileChange(p, Modified, None)]
    case TypeChange(p) => [FileChange(p, Modified, None)]
    case Delete(p) => [FileChange(p, Deleted, None)]
    case Rename(_, s, p) => [FileChange(s, Deleted, None), FileChange(p, Added, Some(s))]
    case Copy(_, _, p) => [FileChange(p, Added, None)]
  }

  function Meanings(entries: seq<DiffEntry>): seq<FileChange> {
    if |entries| == 0 then [] else Meaning(entries[0]) + Meanings(entries[1..])
  }

  /** A path git prints unquoted and the parser leaves alone. */
  ghost predicate PlainPath(p: string) {
    && p != "" && Trim(p)
    && forall i :: 0 <= i < |p| ==> !IsLineBreak(p[i]) && p[i] != '\t' && p[i] != '\\'
  }

  ghost predicate PlainEntry(e: DiffEntry) {
    PlainPath(e.path) && (e.Rename? || e.Copy? ==> PlainPath(e.source))
  }

  // ------------------------------------------------------------------
  // Round trip
  // ------------------------------------------------------------------

  lemma PlainField(p: string)
    requires PlainPath(p)
    ensures PathField(p) == p && Without(p, '\t') && Strip(p) == p
  {
    assert forall i :: 0 <= i < |p| ==> ForwardSlashes(p)[i] == p[i];
  }

  lemma LetterSplit(letter: string, score: string, rest: string)
    requires letter in {"A", "M", "T", "D", "R", "C"} && AllDigits(score)
    ensures Split(letter + score + "\t" + rest, '\t') == [letter + score] + Split(rest, '\t')
    ensures Strip(letter + score) == letter + score
  {
    SplitCons(letter + score, rest, '\t');
    var s := letter + score;
    assert forall i :: 0 < i < |s| ==> IsDigit(s[i]);
  }

  lemma UnscoredLine(letter: string, p: string)
    requires letter in {"A", "M", "T", "D"} && PlainPath(p)
    ensures ChangesOfLine(letter + "\t" + p) == [FileChange(p, StatusOf(letter).value, None)]
  {
    hide Strip, Split, IsSpace, PathField;
    var line := letter + "\t" + p;
    UnscoredSplit(letter, p);
    PlainField(p);
    LettersAreDark();
    assert line[0] == letter[0] && line[|line| - 1] == p[|p| - 1];
    StripKeeps(line);
    StripKeeps(letter);
    assert letter[..1] == letter;
  }

  lemma ScoredLine(letter: string, score: nat, s: string, p: string)
    requires letter in {"R", "C"} && PlainPath(s) && PlainPath(p)
    ensures ChangesOfLine(letter + Digits(score) + "\t" + s + "\t" + p)
         == if letter == "C" then [FileChange(p, Added, None)]
            else [FileChange(s, Deleted, None), FileChange(p, Added, Some(s))]
  {
    hide Strip, Split, IsSpace, PathField;
    var line, first := letter + Digits(score) + "\t" + s + "\t" + p, letter + Digits(score);
    ScoredSplit(letter, score, s, p);
    LettersAreDark();
    assert line[0] == letter[0] && line[|line| - 1] == p[|p| - 1];
    StripKeeps(line);
    assert first[..1] == letter;
  }

  lemma LettersAreDark()
    ensures forall c :: c in "ACDMRT" ==> !IsSpace(c)
  {}

  /** A printed line parses to the changes its entry stands for. */
  lemma LineRoundTrip(e: DiffEntry)
    requires PlainEntry(e)
    ensures ChangesOfLine(Print(e)) == Meaning(e)
  {
    hide ChangesOfLine, PlainPath;
    match e {
      case Add(p) => UnscoredLine("A", p); assert "A" + "\t" == "A\t";
      case Modify(p) => UnscoredLine("M", p); assert "M" + "\t" == "M\t";
      case TypeChange(p) => UnscoredLine("T", p); assert "T" + "\t" == "T\t";
      case Delete(p) => UnscoredLine("D", p); assert "D" + "\t" == "D\t";
      case Rename(score, s, p) => ScoredLine("R", score, s, p);
      case Copy(score, s, p) => ScoredLine("C", score, s, p);
    }
  }

  lemma UnscoredSplit(letter: string, p: string)
    requires letter in {"A", "M", "T", "D"} && PlainPath(p)
    ensures Split(letter + "\t" + p, '\t') == [letter, p]
    ensures Strip(letter) == letter
  {
    PlainField(p);
    SplitWhole(p, '\t');
    LetterSplit(letter, "", p);
    assert letter + "" == letter;
  }

  lemma ScoredSplit(letter: string, score: nat, s: string, p: string)
    requires letter in {"R", "C"} && PlainPath(s) && PlainPath(p)
    ensures Split(letter + Digits(score) + "\t" + s + "\t" + p, '\t') == [letter + Digits(score), s, p]
    ensures Strip(letter + Digits(score)) == letter + Digits(score)
    ensures PathField(s) == s && PathField(p) == p
  {
    PlainField(s);
    PlainField(p);
    SplitWhole(p, '\t');
    SplitCons(s, p, '\t');
    LetterSplit(letter, Digits(score), s + "\t" + p);
    assert letter + Digits(score) + "\t" + s + "\t" + p == letter + Digits(score) + "\t" + (s + "\t" + p);
  }

  ghost predicate OneLine(s: string) {
    forall i :: 0 <= i < |s| ==> !IsLineBreak(s[i])
  }

  lemma OneLineJoin(a: string, b: string)
    requires OneLine(a) && OneLine(b)
    ensures OneLine(a + b)
  {
    hide IsLineBreak;
  }

  lemma TrimJoin(a: string, b: string)
    requires a != "" && b != "" && !IsSpace(a[0]) && !IsSpace(b[|b| - 1])
    ensures Trim(a + b) && Strip(a + b) == a + b
  {
    hide IsSpace;
    assert (a + b)[0] == a[0] && (a + b)[|a + b| - 1] == b[|b| - 1];
  }

  /** What stands before the path on a scored line. */
  lemma ScoredHead(letter: string, score: nat, s: string)
    requires letter in {"R", "C"} && OneLine(s)
    ensures OneLine(letter + Digits(score) + "\t" + s + "\t")
  {
    assert OneLine(letter) && OneLine(Digits(score)) && OneLine("\t");
    OneLineJoin(letter, Digits(score));
    OneLineJoin(letter + Digits(score), "\t");
    OneLineJoin(letter + Digits(score) + "\t", s);
    OneLineJoin(letter + Digits(score) + "\t" + s, "\t");
  }

  lemma Head(e: DiffEntry) returns (head: string)
    requires PlainEntry(e)
    ensures Print(e) == head + e.path && head != "" && !IsSpace(head[0]) && OneLine(head)
  {
    match e {
      case Add(_) => head := "A\t";
      case Modify(_) => head := "M\t";
      case TypeChange(_) => head := "T\t";
      case Delete(_) => head := "D\t";
      case Rename(score, s, _) => ScoredHead("R", score, s); head := "R" + Digits(score) + "\t" + s + "\t";
      case Copy(score, s, _) => ScoredHead("C", score, s); head := "C" + Digits(score) + "\t" + s + "\t";
    }
  }

  lemma PrintedIsTrim(e: DiffEntry)
    requires PlainEntry(e)
    ensures Print(e) != "" && Trim(Print(e)) && Strip(Print(e)) == Print(e) && OneLine(Print(e))
  {
    var head := Head(e);
    assert OneLine(e.path) && e.path != "" && !IsSpace(e.path[|e.path| - 1]);
    OneLineJoin(head, e.path);
    TrimJoin(head, e.path);
  }

  lemma SplitLinesCons(line: string, rest: string)
    requires OneLine(line)
    ensures SplitLines(line + "\n" + rest) == [line] + SplitLines(rest)
    ensures line != "" ==> SplitLines(line) == [line]
  {
    var s := line + "\n" + rest;
    LineLengthIs(s, |line|);
    LineLengthIs(line, |line|);
    assert s[..|line|] == line && s[|line| + 1..] == rest;
  }

  lemma {:induction false} LineLengthIs(s: string, n: nat)
    requires n <= |s| && (forall i :: 0 <= i < n ==> !IsLineBreak(s[i])) && (n < |s| ==> IsLineBreak(s[n]))
    ensures LineLength(s) == n
  {
    if n > 0 {
      LineLengthIs(s[1..], n - 1);
    }
  }

  /** The whole output without its last line break, which is what `strip()` leaves. */
  function Body(entries: seq<DiffEntry>): string
    requires |entries| >= 1
  {
    if |entries| == 1 then Print(entries[0]) else Print(entries[0]) + "\n" + Body(entries[1..])
  }

  lemma {:induction false} BodyTrims(entries: seq<DiffEntry>)
    requires |entries| >= 1 && forall i :: 0 <= i < |entries| ==> PlainEntry(entries[i])
    ensures Body(entries) != "" && Trim(Body(entries))
  {
    hide Print, PlainEntry, Strip, IsSpace;
    PrintedIsTrim(entries[0]);
    if |entries| > 1 {
      BodyTrims(entries[1..]);
      var tail := "\n" + Body(entries[1..]);
      assert Print(entries[0]) + "\n" + Body(entries[1..]) == Print(entries[0]) + tail;
      TrimJoin(Print(entries[0]), tail);
    }
  }

  lemma {:induction false} PrintAllIsBody(entries: seq<DiffEntry>)
    requires |entries| >= 1
    ensures PrintAll(entries) == Body(entries) + "\n"
  {
    hide Print;
    if |entries| == 1 {
      assert Print(entries[0]) + "\n" + "" == Print(entries[0]) + "\n";
    } else {
      PrintAllIsBody(entries[1..]);
      var first := Print(entries[0]);
      assert first + "\n" + (Body(entries[1..]) + "\n") == first + "\n" + Body(entries[1..]) + "\n";
    }
  }

  lemma {:induction false} BodyLines(entries: seq<DiffEntry>)
    requires |entries| >= 1 && forall i :: 0 <= i < |entries| ==> PlainEntry(entries[i])
    ensures |SplitLines(Body(entries))| == |entries|
    ensures forall i :: 0 <= i < |entries| ==> SplitLines(Body(entries))[i] == Print(entries[i])
  {
    hide Print, PlainEntry, SplitLines, Strip, Trim, OneLine;
    PrintedIsTrim(entries[0]);
    if |entries| == 1 {
      SplitLinesCons(Print(entries[0]), "");
    } else {
      BodyLines(entries[1..]);
      SplitLinesCons(Print(entries[0]), Body(entries[1..]));
    }
  }

  lemma {:induction false} LinesParse(entries: seq<DiffEntry>, lines: seq<string>)
    requires |lines| == |entries|
    requires forall i :: 0 <= i < |entries| ==> PlainEntry(entries[i]) && lines[i] == Print(entries[i])
    ensures ChangesOfLines(lines) == Meanings(entries)
  {
    hide ChangesOfLine, PlainEntry, Print, Meaning;
    if |entries| > 0 {
      var n := |entries| - 1;
      LinesParse(entries[..n], lines[..n]);
      LineRoundTrip(entries[n]);
      MeaningsAppend(entries[..n], entries[n]);
      assert entries == entries[..n] + [entries[n]];
    }
  }

  lemma {:induction false} MeaningsAppend(entries: seq<DiffEntry>, e: DiffEntry)
    ensures Meanings(entries + [e]) == Meanings(entries) + Meaning(e)
  {
    if |entries| == 0 {
      assert [e][1..] == [];
    } else {
      assert (entries + [e])[1..] == entries[1..] + [e];
      MeaningsAppend(entries[1..], e);
    }
  }

  /** Printing any list of entries and parsing it gives their changes, in order. */
  lemma ParseInvertsPrint(entries: seq<DiffEntry>)
    requires forall i :: 0 <= i < |entries| ==> PlainEntry(entries[i])
    ensures Parse(PrintAll(entries)) == Meanings(entries)
  {
    if |entries| > 0 {
      BodyTrims(entries);
      PrintAllIsBody(entries);
      BodyLines(entries);
      var body := Body(entries);
      RStripSuffix(body, "\n");
      assert LStrip(body + "\n") == body + "\n";
      assert Strip(PrintAll(entries)) == body;
      LinesParse(entries, SplitLines(body));
    }
  }
}
