/**
  The string operations the Python code relies on: `strip`, `lower`, `split`, `join`,
  `splitlines`, `sorted` on strings, `str(int)` and `int(str)`.
 */
module Text {

  // ------------------------------------------------------------------
  // Characters
  // ------------------------------------------------------------------

  /** `str.isspace` for one character: what `strip()` removes. */
  predicate IsSpace(c: char) {
    || '\t' <= c <= '\r'
    || '\U{1c}' <= c <= ' '
    || c == '\U{85}' || c == '\U{a0}' || c == '\U{1680}'
    || '\U{2000}' <= c <= '\U{200a}'
    || c == '\U{2028}' || c == '\U{2029}' || c == '\U{202f}' || c == '\U{205f}' || c == '\U{3000}'
  }

  /** The characters at which `str.splitlines` breaks. */
  predicate IsLineBreak(c: char) {
    || '\n' <= c <= '\r'
    || '\U{1c}' <= c <= '\U{1e}'
    || c == '\U{85}' || c == '\U{2028}' || c == '\U{2029}'
  }

  predicate Without(s: string, c: char) {
    forall i :: 0 <= i < |s| ==> s[i] != c
  }

  // ------------------------------------------------------------------
  // strip / lower
  // ------------------------------------------------------------------

  function LStrip(s: string): string {
    if s != "" && IsSpace(s[0]) then LStrip(s[1..]) else s
  }

  function RStrip(s: string): string {
    if s != "" && IsSpace(s[|s| - 1]) then RStrip(s[..|s| - 1]) else s
  }

  function Strip(s: string): string {
    RStrip(LStrip(s))
  }

  /** No white space at either end. */
  predicate Trim(s: string) {
    s != "" ==> !IsSpace(s[0]) && !IsSpace(s[|s| - 1])
  }

  lemma {:induction false} LStripStarts(s: string)
    ensures LStrip(s) != "" ==> !IsSpace(LStrip(s)[0])
    ensures |LStrip(s)| <= |s| && LStrip(s) == s[|s| - |LStrip(s)|..]
  {
    if s != "" && IsSpace(s[0]) {
      LStripStarts(s[1..]);
    }
  }

  lemma {:induction false} RStripEnds(s: string)
    ensures RStrip(s) <= s
    ensures RStrip(s) != "" ==> !IsSpace(RStrip(s)[|RStrip(s)| - 1])
  {
    if s != "" && IsSpace(s[|s| - 1]) {
      RStripEnds(s[..|s| - 1]);
    }
  }

  /** `strip` trims, and stripping twice is stripping once. */
  lemma StripTrims(s: string)
    ensures Trim(Strip(s))
    ensures Strip(Strip(s)) == Strip(s)
  {
    LStripStarts(s);
    RStripEnds(LStrip(s));
  }

  lemma StripKeeps(s: string)
    requires Trim(s)
    ensures Strip(s) == s
  {}

  lemma {:induction false} RStripSuffix(s: string, w: string)
    requires forall i :: 0 <= i < |w| ==> IsSpace(w[i])
    ensures RStrip(s + w) == RStrip(s)
    decreases |w|
  {
    if w == "" {
      assert s + w == s;
    } else {
      assert (s + w)[..|s + w| - 1] == s + w[..|w| - 1];
      RStripSuffix(s, w[..|w| - 1]);
    }
  }

  /** Lower-casing is modelled on ASCII letters. */
  function LowerChar(c: char): char {
    if 'A' <= c <= 'Z' then (c as int + 32) as char else c
  }

  function Lower(s: string): (r: string)
    ensures |r| == |s|
    ensures forall i :: 0 <= i < |s| ==> r[i] == LowerChar(s[i])
  {
    seq(|s|, i requires 0 <= i < |s| => LowerChar(s[i]))
  }

  // ------------------------------------------------------------------
  // split / join
  // ------------------------------------------------------------------

  function Split(s: string, sep: char): (parts: seq<string>)
    ensures |parts| >= 1
  {
    if s == "" then [""]
    else
      var rest := Split(s[1..], sep);
      if s[0] == sep then [""] + rest
      else [[s[0]] + rest[0]] + rest[1..]
  }

  function Join(parts: seq<string>, sep: char): string {
    if |parts| == 0 then ""
    else if |parts| == 1 then parts[0]
    else parts[0] + [sep] + Join(parts[1..], sep)
  }

  lemma {:induction false} SplitCons(a: string, s: string, sep: char)
    requires Without(a, sep)
    ensures Split(a + [sep] + s, sep) == [a] + Split(s, sep)
  {
    if a == "" {
      assert (a + [sep] + s)[1..] == s;
    } else {
      assert (a + [sep] + s)[1..] == a[1..] + [sep] + s;
      SplitCons(a[1..], s, sep);
      assert [a[0]] + a[1..] == a;
    }
  }

  lemma {:induction false} SplitWhole(a: string, sep: char)
    requires Without(a, sep)
    ensures Split(a, sep) == [a]
  {
    if a != "" {
      SplitWhole(a[1..], sep);
      assert [a[0]] + a[1..] == a;
    }
  }

  lemma {:induction false} SplitOfJoin(parts: seq<string>, sep: char)
    requires |parts| >= 1
    requires forall i :: 0 <= i < |parts| ==> Without(parts[i], sep)
    ensures Split(Join(parts, sep), sep) == parts
  {
    if |parts| == 1 {
      SplitWhole(parts[0], sep);
    } else {
      SplitOfJoin(parts[1..], sep);
      SplitCons(parts[0], Join(parts[1..], sep), sep);
      assert [parts[0]] + parts[1..] == parts;
    }
  }

  /** Joining is injective on non-empty lists of separator-free parts. */
  lemma JoinInjective(a: seq<string>, b: seq<string>, sep: char)
    requires |a| >= 1 && |b| >= 1
    requires forall i :: 0 <= i < |a| ==> Without(a[i], sep)
    requires forall i :: 0 <= i < |b| ==> Without(b[i], sep)
    ensures Join(a, sep) == Join(b, sep) <==> a == b
  {
    SplitOfJoin(a, sep);
    SplitOfJoin(b, sep);
  }

  /** The first separator cuts a string in one way only. */
  lemma CutUnique(a: string, x: string, b: string, y: string, sep: char)
    requires Without(a, sep) && Without(b, sep)
    ensures a + [sep] + x == b + [sep] + y <==> a == b && x == y
  {
    if a + [sep] + x == b + [sep] + y {
      var s, t := a + [sep] + x, b + [sep] + y;
      assert forall k :: 0 <= k < |a| ==> s[k] == a[k] != sep;
      assert forall k :: 0 <= k < |b| ==> t[k] == b[k] != sep;
      assert s[|a|] == sep && t[|b|] == sep;
      assert |a| == |b|;
      assert a == s[..|a|] == t[..|b|] == b;
      assert x == s[|a| + 1..] == t[|b| + 1..] == y;
    }
  }

  /** Cutting at the last separator, for tails without one. */
  lemma LastCutUnique(a: string, x: string, b: string, y: string, sep: char)
    requires Without(x, sep) && Without(y, sep)
    ensures a + [sep] + x == b + [sep] + y <==> a == b && x == y
  {
    if a + [sep] + x == b + [sep] + y {
      var s, t := a + [sep] + x, b + [sep] + y;
      assert forall k :: |a| < k < |s| ==> s[k] == x[k - |a| - 1] != sep;
      assert forall k :: |b| < k < |t| ==> t[k] == y[k - |b| - 1] != sep;
      assert s[|a|] == sep && t[|b|] == sep;
      assert |a| == |b|;
      assert a == s[..|a|] == t[..|b|] == b;
      assert x == s[|a| + 1..] == t[|b| + 1..] == y;
    }
  }

  // ------------------------------------------------------------------
  // Ordering: Python compares strings by code point, shorter prefix first
  // ------------------------------------------------------------------

  predicate LexLe(a: string, b: string) {
    a == "" || (b != "" && (a[0] < b[0] || (a[0] == b[0] && LexLe(a[1..], b[1..]))))
  }

  lemma {:induction false} LexTotal(a: string, b: string)
    ensures LexLe(a, b) || LexLe(b, a)
  {
    if a != "" && b != "" {
      LexTotal(a[1..], b[1..]);
    }
  }

  lemma {:induction false} LexAntisymmetric(a: string, b: string)
    requires LexLe(a, b) && LexLe(b, a)
    ensures a == b
  {
    if a != "" && b != "" {
      LexAntisymmetric(a[1..], b[1..]);
      assert a == [a[0]] + a[1..] && b == [b[0]] + b[1..];
    }
  }

  lemma {:induction false} LexTransitive(a: string, b: string, c: string)
    requires LexLe(a, b) && LexLe(b, c)
    ensures LexLe(a, c)
  {
    if a != "" && a[0] == b[0] == c[0] {
      LexTransitive(a[1..], b[1..], c[1..]);
    }
  }

  ghost predicate Sorted(xs: seq<string>) {
    forall i, j :: 0 <= i < j < |xs| ==> LexLe(xs[i], xs[j])
  }

  function Insert(x: string, xs: seq<string>): seq<string> {
    if |xs| == 0 || LexLe(x, xs[0]) then [x] + xs
    else [xs[0]] + Insert(x, xs[1..])
  }

  /** `sorted(xs)`: any correct sort returns this list, by SortedUnique. */
  function Sort(xs: seq<string>): seq<string> {
    if |xs| == 0 then [] else Insert(xs[0], Sort(xs[1..]))
  }

  lemma {:induction false} InsertSorts(x: string, xs: seq<string>)
    requires Sorted(xs)
    ensures Sorted(Insert(x, xs))
    ensures multiset(Insert(x, xs)) == multiset(xs) + multiset{x}
  {
    if |xs| == 0 {
    } else if LexLe(x, xs[0]) {
      forall i | 0 <= i < |xs| ensures LexLe(x, xs[i]) {
        if i > 0 { LexTransitive(x, xs[0], xs[i]); }
      }
    } else {
      LexTotal(x, xs[0]);
      InsertSorts(x, xs[1..]);
      HeadStaysFirst(x, xs, Insert(x, xs[1..]));
    }
  }

  lemma HeadStaysFirst(x: string, xs: seq<string>, tail: seq<string>)
    requires |xs| > 0 && Sorted(xs) && Sorted(tail) && LexLe(xs[0], x)
    requires multiset(tail) == multiset(xs[1..]) + multiset{x}
    ensures Sorted([xs[0]] + tail) && multiset([xs[0]] + tail) == multiset(xs) + multiset{x}
  {
    hide LexLe;
    assert xs == [xs[0]] + xs[1..];
    forall i | 0 <= i < |tail| ensures LexLe(xs[0], tail[i]) {
      assert tail[i] in multiset(tail);
      assert tail[i] == x || tail[i] in xs[1..];
    }
  }

  lemma {:induction false} SortSorts(xs: seq<string>)
    ensures Sorted(Sort(xs))
    ensures multiset(Sort(xs)) == multiset(xs)
    ensures |Sort(xs)| == |xs|
  {
    if |xs| > 0 {
      SortSorts(xs[1..]);
      InsertSorts(xs[0], Sort(xs[1..]));
      assert xs == [xs[0]] + xs[1..];
    }
    assert |multiset(Sort(xs))| == |multiset(xs)|;
  }

  lemma SortedHead(a: seq<string>, x: string)
    requires Sorted(a) && x in a
    ensures LexLe(a[0], x)
  {
    var i :| 0 <= i < |a| && a[i] == x;
    LexTotal(x, x);
  }

  /** A sorted arrangement of a multiset of strings is unique. */
  lemma {:induction false} SortedUnique(a: seq<string>, b: seq<string>)
    requires Sorted(a) && Sorted(b)
    requires multiset(a) == multiset(b)
    ensures a == b
  {
    assert |a| == |multiset(a)| == |multiset(b)| == |b|;
    if |a| > 0 {
      SortedHeadsAgree(a, b);
      SortedTail(a);
      SortedTail(b);
      TailMultisets(a, b);
      SortedUnique(a[1..], b[1..]);
      assert a == [a[0]] + a[1..] && b == [b[0]] + b[1..];
    }
  }

  lemma SortedHeadsAgree(a: seq<string>, b: seq<string>)
    requires |a| > 0 && |b| > 0 && Sorted(a) && Sorted(b)
    requires multiset(a) == multiset(b)
    ensures a[0] == b[0]
  {
    assert a[0] in multiset(b) && b[0] in multiset(a);
    SortedHead(a, b[0]);
    SortedHead(b, a[0]);
    LexAntisymmetric(a[0], b[0]);
  }

  lemma TailMultisets(a: seq<string>, b: seq<string>)
    requires |a| > 0 && |b| > 0 && a[0] == b[0]
    requires multiset(a) == multiset(b)
    ensures multiset(a[1..]) == multiset(b[1..])
  {
    assert a == [a[0]] + a[1..] && b == [b[0]] + b[1..];
    assert multiset(a[1..]) == multiset(a) - multiset{a[0]} == multiset(b[1..]);
  }

  lemma SortedTail(a: seq<string>)
    requires |a| > 0 && Sorted(a)
    ensures Sorted(a[1..])
  {}

  /** Sorting decides equality of multisets. */
  lemma SortCanonical(a: seq<string>, b: seq<string>)
    ensures Sort(a) == Sort(b) <==> multiset(a) == multiset(b)
  {
    SortSorts(a);
    SortSorts(b);
    if multiset(a) == multiset(b) {
      SortedUnique(Sort(a), Sort(b));
    }
  }

  // ------------------------------------------------------------------
  // Decimal numerals
  // ------------------------------------------------------------------

  predicate IsDigit(c: char) {
    '0' <= c <= '9'
  }

  predicate AllDigits(s: string) {
    forall i :: 0 <= i < |s| ==> IsDigit(s[i])
  }

  /** `str(n)` for n >= 0. */
  function Digits(n: nat): (s: string)
    ensures s != "" && AllDigits(s)
  {
    if n < 10 then [(n + 48) as char]
    else Digits(n / 10) + [(n % 10 + 48) as char]
  }

  /** `str(i)`. */
  function IntText(i: int): string {
    if i < 0 then "-" + Digits(-i) else Digits(i)
  }

  /** `int(s)` for a numeral. */
  function ParseNat(s: string): nat
    requires AllDigits(s)
  {
    if s == "" then 0
    else ParseNat(s[..|s| - 1]) * 10 + (s[|s| - 1] as int - 48)
  }

  /** `int(str(n)) == n`. */
  lemma {:induction false} ParseOfDigits(n: nat)
    ensures ParseNat(Digits(n)) == n
  {
    if n >= 10 {
      ParseOfDigits(n / 10);
      assert Digits(n)[..|Digits(n)| - 1] == Digits(n / 10);
    }
  }

  /** A numeral has no leading zero, and its digits are those of the number without its sign. */
  lemma {:induction false} DigitsAreCanonical(n: nat)
    ensures Digits(n)[0] == '0' <==> n == 0
  {
    if n >= 10 {
      DigitsAreCanonical(n / 10);
    }
  }

  lemma NumeralTells(i: int)
    ensures var s, magnitude := IntText(i), if i < 0 then -i else i;
            var digits := if i < 0 then s[1..] else s;
            && (i < 0 ==> s[0] == '-') && digits != "" && AllDigits(digits) && ParseNat(digits) == magnitude
            && (digits[0] == '0' ==> digits == "0")
  {
    ParseOfDigits(if i < 0 then -i else i);
    DigitsAreCanonical(if i < 0 then -i else i);
  }

  lemma IntTextSign(i: int)
    ensures IntText(i)[0] == '-' <==> i < 0
  {
    assert IsDigit(Digits(if i < 0 then -i else i)[0]);
  }

  lemma IntTextInjective(a: int, b: int)
    ensures IntText(a) == IntText(b) <==> a == b
  {
    if IntText(a) == IntText(b) {
      IntTextSign(a);
      IntTextSign(b);
      ParseOfDigits(if a < 0 then -a else a);
      ParseOfDigits(if b < 0 then -b else b);
      if a < 0 {
        assert Digits(-a) == IntText(a)[1..] == IntText(b)[1..] == Digits(-b);
      }
    }
  }

  /** A numeral holds only digits and a minus sign. */
  lemma IntTextWithout(i: int, c: char)
    requires !IsDigit(c) && c != '-'
    ensures Without(IntText(i), c)
  {
    var s := Digits(if i < 0 then -i else i);
    forall k | 0 <= k < |IntText(i)| ensures IntText(i)[k] != c {
      if i < 0 && k > 0 { assert IsDigit(s[k - 1]); }
      if i >= 0 { assert IsDigit(s[k]); }
    }
  }
}
