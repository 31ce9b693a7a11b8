/**
  `gita.agents.pr_reviewer.diff_parser`: the new-side line ranges of a unified diff, read
  from its hunk headers, and `_line_in_diff_ranges` of the guardrails, which consumes them.
 */
module Hunks {
  import opened Common
  import opened Text

  datatype ChangedLineRange = ChangedLineRange(start: nat, count: nat) {
    /** The `end` property: inclusive, or `start` when the count is 0. */
    function End(): nat { start + if count == 0 then 0 else count - 1 }
  }

  // ------------------------------------------------------------------
  // The header pattern, anchored at the start of a line
  // ------------------------------------------------------------------

  /** Length of the longest prefix of digits. */
  function DigitRun(s: string): (n: nat)
    ensures n <= |s| && AllDigits(s[..n])
    ensures n < |s| ==> !IsDigit(s[n])
  {
    if s == "" || !IsDigit(s[0]) then 0
    else
      assert s[..1 + DigitRun(s[1..])] == [s[0]] + s[1..][..DigitRun(s[1..])];
      1 + DigitRun(s[1..])
  }

  /** `(\d+)(?:,(\d+))?`: start, count if given, and the rest of the line. */
  function ReadRange(s: string): Option<(nat, Option<nat>, string)> {
    var n := DigitRun(s);
    if n == 0 then None
    else
      var rest := s[n..];
      if rest != "" && rest[0] == ',' && DigitRun(rest[1..]) > 0 then
        var m := DigitRun(rest[1..]);
        Some((ParseNat(s[..n]), Some(ParseNat(rest[1..][..m])), rest[1..][m..]))
      else Some((ParseNat(s[..n]), None, rest))
  }

  /** `^@@ -\d+(?:,\d+)? \+(\d+)(?:,(\d+))? @@` on one line. */
  function MatchHeader(line: string): Option<ChangedLineRange> {
    if !("@@ -" <= line) then None
    else
      match ReadRange(line[4..])
      case None => None
      case Some((_, _, rest)) =>
        if !(" +" <= rest) then None
        else
          match ReadRange(rest[2..])
          case None => None
          case Some((start, count, tail)) =>
            if " @@" <= tail then Some(ChangedLineRange(start, count.GetOr(1))) else None
  }

  function RangesOfLines(lines: seq<string>): seq<ChangedLineRange> {
    if |lines| == 0 then []
    else
      var rest := RangesOfLines(lines[..|lines| - 1]);
      match MatchHeader(lines[|lines| - 1])
      case None => rest
      case Some(r) => rest + [r]
  }

  /** `_extract_changed_ranges`; the pattern's `^` matches after every "\n". */
  function Extract(patch: Option<string>): seq<ChangedLineRange> {
    if patch.None? || patch.value == "" then [] else RangesOfLines(Split(patch.value, '\n'))
  }

  method ExtractChangedRanges(patch: Option<string>) returns (ranges: seq<ChangedLineRange>)
    ensures ranges == Extract(patch)
  {
    if patch.None? || patch.value == "" {
      return [];
    }
    ranges := [];
    var lines := Split(patch.value, '\n');
    for n := 0 to |lines|
      invariant ranges == RangesOfLines(lines[..n])
    {
      assert lines[..n + 1][..n] == lines[..n];
      var found := MatchHeader(lines[n]);
      if found.Some? {
        ranges := ranges + [found.value];
      }
    }
    assert lines[..|lines|] == lines;
  }

  // ------------------------------------------------------------------
  // Printed hunks
  // ------------------------------------------------------------------

  datatype LineKind = Context | Added | Removed | NoNewline

  datatype BodyLine = BodyLine(kind: LineKind, text: string)

  /** A hunk; `heading` is whatever follows the second "@@". */
  datatype Hunk = Hunk(oldStart: nat, oldCount: nat, newStart: nat, newCount: nat,
                       omitOld: bool, omitNew: bool, heading: string, body: seq<BodyLine>)

  /** How many body lines are on the new side. */
  function NewSide(body: seq<BodyLine>): nat {
    if |body| == 0 then 0
    else NewSide(body[..|body| - 1]) + (if body[|body| - 1].kind in {Context, Added} then 1 else 0)
  }

  /** A count may be left out only when it is 1; no text holds a line feed. */
  ghost predicate WellFormed(h: Hunk) {
    && (h.omitOld ==> h.oldCount == 1) && (h.omitNew ==> h.newCount == 1)
    && Without(h.heading, '\n')
    && forall i :: 0 <= i < |h.body| ==> Without(h.body[i].text, '\n')
  }

  function Prefix(kind: LineKind): string {
    match kind
    case Context => " "
    case Added => "+"
    case Removed => "-"
    case NoNewline => "\\"
  }

  function PrintRange(start: nat, count: nat, omit: bool): string {
    Digits(start) + (if omit then "" else "," + Digits(count))
  }

  function Header(h: Hunk): string {
    "@@ -" + (PrintRange(h.oldStart, h.oldCount, h.omitOld)
    + (" +" + (PrintRange(h.newStart, h.newCount, h.omitNew) + (" @@" + h.heading))))
  }

  function BodyText(body: seq<BodyLine>): seq<string> {
    seq(|body|, i requires 0 <= i < |body| => Prefix(body[i].kind) + body[i].text)
  }

  function LinesOf(h: Hunk): seq<string> { [Header(h)] + BodyText(h.body) }

  function AllLines(hunks: seq<Hunk>): seq<string> {
    if |hunks| == 0 then [] else AllLines(hunks[..|hunks| - 1]) + LinesOf(hunks[|hunks| - 1])
  }

  function PrintPatch(hunks: seq<Hunk>): string { Join(AllLines(hunks), '\n') }

  function NewRanges(hunks: seq<Hunk>): seq<ChangedLineRange> {
    seq(|hunks|, i requires 0 <= i < |hunks| => ChangedLineRange(hunks[i].newStart, hunks[i].newCount))
  }

  // ------------------------------------------------------------------
  // Round trip
  // ------------------------------------------------------------------

  lemma {:induction false} DigitRunIs(s: string, n: nat)
    requires n <= |s| && AllDigits(s[..n]) && (n < |s| ==> !IsDigit(s[n]))
    ensures DigitRun(s) == n
  {
    if n > 0 {
      assert s[..n][0] == s[0] && s[1..][..n - 1] == s[..n][1..];
      DigitRunIs(s[1..], n - 1);
    }
  }

  lemma DigitRunOf(a: string, rest: string)
    requires AllDigits(a) && (rest != "" ==> !IsDigit(rest[0]))
    ensures DigitRun(a + rest) == |a| && (a + rest)[..|a|] == a && (a + rest)[|a|..] == rest
  {
    hide IsDigit;
    assert (a + rest)[..|a|] == a && (a + rest)[|a|..] == rest;
    DigitRunIs(a + rest, |a|);
  }

  /** Digits, then something that is no digit and no comma: a range without a count. */
  lemma ReadStart(a: string, rest: string)
    requires a != "" && AllDigits(a)
    requires rest != "" && rest[0] != ',' && !IsDigit(rest[0])
    ensures ReadRange(a + rest) == Some((ParseNat(a), None, rest))
  {
    DigitRunOf(a, rest);
  }

  lemma ReadStartAndCount(a: string, b: string, rest: string)
    requires a != "" && AllDigits(a) && b != "" && AllDigits(b)
    requires rest != "" && !IsDigit(rest[0])
    ensures ReadRange(a + ("," + (b + rest))) == Some((ParseNat(a), Some(ParseNat(b)), rest))
  {
    var tail := "," + (b + rest);
    assert tail[1..] == b + rest;
    DigitRunOf(a, tail);
    DigitRunOf(b, rest);
  }

  /** Reading a printed range gives it back, up to a blank. */
  lemma RangeRoundTrip(start: nat, count: nat, omit: bool, rest: string)
    requires rest != "" && rest[0] == ' '
    ensures ReadRange(PrintRange(start, count, omit) + rest)
         == Some((start, if omit then None else Some(count), rest))
  {
    hide ReadRange, ParseNat, Digits;
    var a, b := Digits(start), Digits(count);
    ParseOfDigits(start);
    ParseOfDigits(count);
    if omit {
      assert PrintRange(start, count, omit) + rest == a + rest;
      ReadStart(a, rest);
    } else {
      assert PrintRange(start, count, omit) + rest == a + ("," + (b + rest));
      ReadStartAndCount(a, b, rest);
    }
  }

  /** One or two numerals: a start, and a count behind a comma. */
  ghost predicate SpellsRange(s: string, start: nat, count: Option<nat>) {
    match count
    case None => s != "" && AllDigits(s) && start == ParseNat(s)
    case Some(n) => exists a, b :: s == a + ("," + b) && a != "" && AllDigits(a) && b != "" && AllDigits(b)
                                   && start == ParseNat(a) && n == ParseNat(b)
  }

  lemma ReadRangeGives(s: string) returns (front: string)
    requires ReadRange(s).Some?
    ensures var (start, count, rest) := ReadRange(s).value; s == front + rest && SpellsRange(front, start, count)
  {
    hide ParseNat, IsDigit;
    var n := DigitRun(s);
    var rest := s[n..];
    front := s[..n];
    if rest != "" && rest[0] == ',' && DigitRun(rest[1..]) > 0 {
      var m := DigitRun(rest[1..]);
      front := s[..n] + ("," + rest[1..][..m]);
      CutTwice(s, n, m);
    }
  }

  lemma CutTwice(s: string, n: nat, m: nat)
    requires n < |s| && s[n] == ',' && m <= |s[n..][1..]|
    ensures s == s[..n] + ("," + s[n..][1..][..m]) + s[n..][1..][m..]
  {
    var tail := s[n..][1..];
    assert s[n..] == "," + tail && tail == tail[..m] + tail[m..];
    assert s == s[..n] + s[n..];
  }

  lemma RangeReadsBack(s: string, start: nat, count: Option<nat>, rest: string)
    requires SpellsRange(s, start, count) && rest != "" && rest[0] == ' '
    ensures ReadRange(s + rest) == Some((start, count, rest))
  {
    hide ReadRange, ParseNat;
    if count.None? {
      ReadStart(s, rest);
    } else {
      var a, b :| s == a + ("," + b) && a != "" && AllDigits(a) && b != "" && AllDigits(b)
                  && start == ParseNat(a) && count.value == ParseNat(b);
      ReadStartAndCount(a, b, rest);
      assert s + rest == a + ("," + (b + rest));
    }
  }

  /** A header line: two ranges between the marks, whatever follows. */
  ghost predicate IsHeader(line: string, r: ChangedLineRange) {
    exists oldSide, n, k, newSide, count, heading ::
      && line == "@@ -" + (oldSide + (" +" + (newSide + (" @@" + heading))))
      && SpellsRange(oldSide, n, k) && SpellsRange(newSide, r.start, count)
      && r.count == (if count.None? then 1 else count.value)
  }

  /** A line is taken for a header with this range exactly when it is one. */
  lemma HeaderExactlyWhen(line: string, r: ChangedLineRange)
    ensures MatchHeader(line) == Some(r) <==> IsHeader(line, r)
  {
    hide ReadRange, SpellsRange;
    if MatchHeader(line) == Some(r) {
      HeaderIsRead(line, r);
    }
    if oldSide, n, k, newSide, count, heading :|
      && line == "@@ -" + (oldSide + (" +" + (newSide + (" @@" + heading))))
      && SpellsRange(oldSide, n, k) && SpellsRange(newSide, r.start, count)
      && r.count == (if count.None? then 1 else count.value)
    {
      var back := newSide + (" @@" + heading);
      RangeReadsBack(oldSide, n, k, " +" + back);
      RangeReadsBack(newSide, r.start, count, " @@" + heading);
      assert line[4..] == oldSide + (" +" + back) && (" +" + back)[2..] == back;
    }
  }

  lemma HeaderIsRead(line: string, r: ChangedLineRange)
    requires MatchHeader(line) == Some(r)
    ensures IsHeader(line, r)
  {
    hide ReadRange, SpellsRange;
    var (n, k, rest) := ReadRange(line[4..]).value;
    var oldSide := ReadRangeGives(line[4..]);
    var (start, count, tail) := ReadRange(rest[2..]).value;
    var newSide := ReadRangeGives(rest[2..]);
    assert line == "@@ -" + (oldSide + (" +" + (newSide + (" @@" + tail[3..]))));
  }

  lemma HeaderMatches(h: Hunk)
    requires WellFormed(h)
    ensures MatchHeader(Header(h)) == Some(ChangedLineRange(h.newStart, h.newCount))
    ensures Without(Header(h), '\n')
  {
    hide ReadRange, PrintRange;
    var tail := " @@" + h.heading;
    var newSide := PrintRange(h.newStart, h.newCount, h.omitNew) + tail;
    var oldSide := PrintRange(h.oldStart, h.oldCount, h.omitOld) + (" +" + newSide);
    assert Header(h) == "@@ -" + oldSide;
    assert Header(h)[4..] == oldSide && (" +" + newSide)[2..] == newSide;
    RangeRoundTrip(h.oldStart, h.oldCount, h.omitOld, " +" + newSide);
    RangeRoundTrip(h.newStart, h.newCount, h.omitNew, tail);
    RangeIsOneLine(h.oldStart, h.oldCount, h.omitOld);
    RangeIsOneLine(h.newStart, h.newCount, h.omitNew);
  }

  lemma RangeIsOneLine(start: nat, count: nat, omit: bool)
    ensures Without(PrintRange(start, count, omit), '\n')
  {}

  lemma BodyLineIsNoHeader(line: BodyLine)
    ensures MatchHeader(Prefix(line.kind) + line.text) == None
  {
    hide ReadRange;
    assert (Prefix(line.kind) + line.text)[0] != '@' && "@@ -"[0] == '@';
  }

  /** No body line is taken for a header. */
  lemma {:induction false} BodyGivesNothing(lines: seq<string>, body: seq<BodyLine>)
    ensures RangesOfLines(lines + BodyText(body)) == RangesOfLines(lines)
  {
    hide RangesOfLines, MatchHeader, Prefix;
    if |body| == 0 {
      assert lines + BodyText(body) == lines;
    } else {
      var front, last := body[..|body| - 1], body[|body| - 1];
      assert lines + BodyText(body) == lines + BodyText(front) + [Prefix(last.kind) + last.text];
      BodyGivesNothing(lines, front);
      BodyLineIsNoHeader(last);
      OneMoreLine(lines + BodyText(front), Prefix(last.kind) + last.text);
    }
  }

  /** A printed hunk adds exactly its own range. */
  lemma HunkGivesItsRange(lines: seq<string>, h: Hunk)
    requires WellFormed(h)
    ensures RangesOfLines(lines + LinesOf(h)) == RangesOfLines(lines) + [ChangedLineRange(h.newStart, h.newCount)]
  {
    hide *;
    HeaderMatches(h);
    BodyGivesNothing(lines + [Header(h)], h.body);
    OneMoreLine(lines, Header(h));
    HunkLines(lines, h);
  }

  lemma HunkLines(lines: seq<string>, h: Hunk)
    ensures lines + LinesOf(h) == lines + [Header(h)] + BodyText(h.body)
  {
    hide Header, BodyText;
  }

  lemma OneMoreLine(lines: seq<string>, line: string)
    ensures RangesOfLines(lines + [line])
         == match MatchHeader(line)
            case None => RangesOfLines(lines)
            case Some(r) => RangesOfLines(lines) + [r]
  {
    hide MatchHeader;
    assert (lines + [line])[..|lines|] == lines;
  }

  lemma {:induction false} LinesGiveRanges(hunks: seq<Hunk>)
    requires forall i :: 0 <= i < |hunks| ==> WellFormed(hunks[i])
    ensures RangesOfLines(AllLines(hunks)) == NewRanges(hunks)
  {
    hide RangesOfLines, LinesOf, WellFormed;
    if |hunks| == 0 {
      EmptyGivesNothing();
    } else {
      var front, h := hunks[..|hunks| - 1], hunks[|hunks| - 1];
      LinesGiveRanges(front);
      HunkGivesItsRange(AllLines(front), h);
      assert NewRanges(hunks) == NewRanges(front) + [ChangedLineRange(h.newStart, h.newCount)];
    }
  }

  lemma EmptyGivesNothing()
    ensures RangesOfLines([]) == []
  {}

  ghost predicate NoBreaks(lines: seq<string>) {
    forall i :: 0 <= i < |lines| ==> Without(lines[i], '\n')
  }

  lemma NoBreaksJoin(a: seq<string>, b: seq<string>)
    requires NoBreaks(a) && NoBreaks(b)
    ensures NoBreaks(a + b)
  {
    hide Without;
  }

  lemma {:induction false} LinesAreLines(hunks: seq<Hunk>)
    requires forall i :: 0 <= i < |hunks| ==> WellFormed(hunks[i])
    ensures NoBreaks(AllLines(hunks))
  {
    if |hunks| > 0 {
      var front, h := hunks[..|hunks| - 1], hunks[|hunks| - 1];
      LinesAreLines(front);
      HunkIsLines(h);
      NoBreaksJoin(AllLines(front), LinesOf(h));
    }
  }

  lemma HunkIsLines(h: Hunk)
    requires WellFormed(h)
    ensures NoBreaks(LinesOf(h))
  {
    HeaderMatches(h);
    BodyIsOneLineEach(h);
    NoBreaksJoin([Header(h)], BodyText(h.body));
  }

  lemma BodyIsOneLineEach(h: Hunk)
    requires WellFormed(h)
    ensures NoBreaks(BodyText(h.body))
  {}

  /** For every list of printed hunks, extraction returns exactly their new-side ranges, in order. */
  lemma ExtractInvertsPrint(hunks: seq<Hunk>)
    requires forall i :: 0 <= i < |hunks| ==> WellFormed(hunks[i])
    ensures Extract(Some(PrintPatch(hunks))) == NewRanges(hunks)
  {
    hide RangesOfLines;
    LinesGiveRanges(hunks);
    LinesAreLines(hunks);
    if |hunks| == 0 {
      assert NewRanges(hunks) == [];
    } else {
      SplitOfJoin(AllLines(hunks), '\n');
      PatchIsNotEmpty(hunks);
    }
  }

  lemma PatchIsNotEmpty(hunks: seq<Hunk>)
    requires |hunks| > 0
    ensures PrintPatch(hunks) != "" && |AllLines(hunks)| >= 1
  {
    FirstLine(hunks);
  }

  lemma {:induction false} FirstLine(hunks: seq<Hunk>)
    requires |hunks| > 0
    ensures |AllLines(hunks)| >= 1 && AllLines(hunks)[0] == Header(hunks[0])
  {
    if |hunks| > 1 {
      FirstLine(hunks[..|hunks| - 1]);
    }
  }

  // ------------------------------------------------------------------
  // What the guardrail accepts
  // ------------------------------------------------------------------

  datatype DiffHunk = DiffHunk(filePath: string, changedRanges: seq<ChangedLineRange>)

  predicate InRanges(line: int, ranges: seq<ChangedLineRange>) {
    exists i :: 0 <= i < |ranges| && ranges[i].start <= line <= ranges[i].End()
  }

  /** `_line_in_diff_ranges`. */
  predicate LineInDiffRanges(filePath: string, line: int, diff: seq<DiffHunk>) {
    exists i :: 0 <= i < |diff| && diff[i].filePath == filePath && InRanges(line, diff[i].changedRanges)
  }

  /** The loops of `_line_in_diff_ranges`, with their early return. */
  method FindLine(filePath: string, line: int, diff: seq<DiffHunk>) returns (found: bool)
    ensures found <==> LineInDiffRanges(filePath, line, diff)
  {
    for i := 0 to |diff|
      invariant !LineInDiffRanges(filePath, line, diff[..i])
    {
      if diff[i].filePath == filePath {
        for j := 0 to |diff[i].changedRanges|
          invariant forall k :: 0 <= k < j ==>
                      !(diff[i].changedRanges[k].start <= line <= diff[i].changedRanges[k].End())
        {
          if diff[i].changedRanges[j].start <= line <= diff[i].changedRanges[j].End() {
            assert InRanges(line, diff[i].changedRanges);
            return true;
          }
        }
      }
    }
    assert diff[..|diff|] == diff;
    return false;
  }

  /** The new-side number of body line k: context and added lines count up from newStart. */
  function NewLineNumber(h: Hunk, k: nat): int
    requires k < |h.body|
  {
    h.newStart + NewSide(h.body[..k])
  }

  ghost predicate IsNewLine(h: Hunk, line: int) {
    exists k :: 0 <= k < |h.body| && h.body[k].kind in {Context, Added} && NewLineNumber(h, k) == line
  }

  lemma {:induction false} NewLinesFill(h: Hunk, n: nat, line: int)
    requires n <= |h.body|
    ensures (exists k :: 0 <= k < n && h.body[k].kind in {Context, Added} && NewLineNumber(h, k) == line)
       <==> h.newStart <= line < h.newStart + NewSide(h.body[..n])
  {
    if n > 0 {
      NewLinesFill(h, n - 1, line);
      assert h.body[..n][..n - 1] == h.body[..n - 1];
      if h.newStart <= line < h.newStart + NewSide(h.body[..n]) && !(line < h.newStart + NewSide(h.body[..n - 1])) {
        assert NewLineNumber(h, n - 1) == line;
      }
    }
  }

  /**
    Parse a patch whose headers count their bodies right, and ask whether a line lies in
    its ranges: yes exactly for the lines the patch shows on the new side, and for the
    anchor line of a hunk that only deletes.
   */
  lemma RangesAreNewLines(hunks: seq<Hunk>, line: int)
    requires forall i :: 0 <= i < |hunks| ==> WellFormed(hunks[i]) && hunks[i].newCount == NewSide(hunks[i].body)
    ensures InRanges(line, Extract(Some(PrintPatch(hunks))))
       <==> exists i :: 0 <= i < |hunks|
              && (IsNewLine(hunks[i], line) || (hunks[i].newCount == 0 && line == hunks[i].newStart))
  {
    ExtractInvertsPrint(hunks);
    forall i | 0 <= i < |hunks|
      ensures NewRanges(hunks)[i].start <= line <= NewRanges(hunks)[i].End()
        <==> IsNewLine(hunks[i], line) || (hunks[i].newCount == 0 && line == hunks[i].newStart)
    {
      NewLinesFill(hunks[i], |hunks[i].body|, line);
      assert hunks[i].body[..|hunks[i].body|] == hunks[i].body;
    }
  }
}
