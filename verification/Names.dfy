/**
  When two names count as one: `strip` and `lower` told by what they do to the text, without
  reference to how they do it.
 */
module Names {
  import opened Text

  /** One character, or one letter in both cases. */
  predicate SameLetter(a: char, b: char) {
    || a == b
    || ('A' <= a <= 'Z' && b as int - a as int == 'a' as int - 'A' as int)
    || ('A' <= b <= 'Z' && a as int - b as int == 'a' as int - 'A' as int)
  }

  /** The same text, whatever the case of its letters. */
  predicate SameButCase(s: string, t: string) {
    |s| == |t| && forall i :: 0 <= i < |s| ==> SameLetter(s[i], t[i])
  }

  /** `lower` only changes case, leaves no capital, and decides equality up to case. */
  lemma LowerDecides(s: string, t: string)
    ensures SameButCase(s, Lower(s)) && forall i :: 0 <= i < |s| ==> !('A' <= Lower(s)[i] <= 'Z')
    ensures Lower(s) == Lower(t) <==> SameButCase(s, t)
  {
    hide SameLetter;
    forall i | 0 <= i < |s|
      ensures SameLetter(s[i], LowerChar(s[i])) && !('A' <= LowerChar(s[i]) <= 'Z')
    {
      LowerCharDecides(s[i], s[i]);
    }
    if |s| == |t| {
      forall i | 0 <= i < |s| ensures Lower(s)[i] == Lower(t)[i] <==> SameLetter(s[i], t[i]) {
        LowerCharDecides(s[i], t[i]);
      }
    }
  }

  lemma LowerCharDecides(a: char, b: char)
    ensures SameLetter(a, LowerChar(a)) && !('A' <= LowerChar(a) <= 'Z')
    ensures LowerChar(a) == LowerChar(b) <==> SameLetter(a, b)
  {}

  predicate AllSpace(s: string) {
    forall i :: 0 <= i < |s| ==> IsSpace(s[i])
  }

  /** t is s without the white space at its ends. */
  ghost predicate Trimmed(s: string, t: string) {
    Trim(t) && exists l, r :: AllSpace(l) && AllSpace(r) && s == l + t + r
  }

  /** `strip` takes away the white space at both ends, all of it and nothing else. */
  lemma StripIsTrimmed(s: string, t: string)
    ensures Strip(s) == t <==> Trimmed(s, t)
  {
    StripTrims(s);
    var l := LStripTakesSpace(s);
    var r := RStripTakesSpace(LStrip(s));
    assert s == l + Strip(s) + r;
    if Trimmed(s, t) {
      var l', r' :| AllSpace(l') && AllSpace(r') && s == l' + t + r';
      OneTrimmed(l, Strip(s), r, l', t, r');
    }
  }

  lemma {:induction false} LStripTakesSpace(s: string) returns (l: string)
    ensures AllSpace(l) && s == l + LStrip(s)
  {
    l := [];
    if s != "" && IsSpace(s[0]) {
      var rest := LStripTakesSpace(s[1..]);
      l := [s[0]] + rest;
    }
  }

  lemma {:induction false} RStripTakesSpace(s: string) returns (r: string)
    ensures AllSpace(r) && s == RStrip(s) + r
  {
    r := [];
    if s != "" && IsSpace(s[|s| - 1]) {
      var rest := RStripTakesSpace(s[..|s| - 1]);
      r := rest + [s[|s| - 1]];
    }
  }

  lemma OneTrimmed(l: string, t: string, r: string, l': string, t': string, r': string)
    requires AllSpace(l) && AllSpace(r) && AllSpace(l') && AllSpace(r') && Trim(t) && Trim(t')
    requires l + t + r == l' + t' + r'
    ensures t == t'
  {
    if t != "" || t' != "" {
      OneFront(l, t, r, l', t', r');
      OneBack(l, t, r, l', t', r');
      assert t == (l + t + r)[|l|..|l| + |t|];
      assert t' == (l' + t' + r')[|l'|..|l'| + |t'|];
    }
  }

  lemma OneFront(l: string, t: string, r: string, l': string, t': string, r': string)
    requires AllSpace(l) && AllSpace(r) && AllSpace(l') && AllSpace(r') && Trim(t) && Trim(t')
    requires l + t + r == l' + t' + r' && (t != "" || t' != "")
    ensures t != "" && t' != "" && |l| == |l'|
  {
    var s, s' := l + t + r, l' + t' + r';
    assert t != "" ==> s[|l|] == t[0];
    assert t' != "" ==> s'[|l'|] == t'[0];
    assert forall i :: 0 <= i < |l| ==> s[i] == l[i];
    assert forall i :: 0 <= i < |l'| ==> s'[i] == l'[i];
    assert forall i :: |l| + |t| <= i < |s| ==> s[i] == r[i - |l| - |t|];
    assert forall i :: |l'| + |t'| <= i < |s'| ==> s'[i] == r'[i - |l'| - |t'|];
  }

  lemma OneBack(l: string, t: string, r: string, l': string, t': string, r': string)
    requires AllSpace(l) && AllSpace(r) && AllSpace(l') && AllSpace(r') && Trim(t) && Trim(t')
    requires l + t + r == l' + t' + r' && t != "" && t' != ""
    ensures |l| + |t| == |l'| + |t'|
  {
    var s, s' := l + t + r, l' + t' + r';
    assert s[|l| + |t| - 1] == t[|t| - 1];
    assert s'[|l'| + |t'| - 1] == t'[|t'| - 1];
    assert forall i :: |l| + |t| <= i < |s| ==> s[i] == r[i - |l| - |t|];
    assert forall i :: |l'| + |t'| <= i < |s'| ==> s'[i] == r'[i - |l'| - |t'|];
  }

  /** One name: the white space at the ends and the case of the letters aside. */
  ghost predicate SameName(s: string, t: string) {
    exists a, b :: Trimmed(s, a) && Trimmed(t, b) && SameButCase(a, b)
  }

  lemma SameNameIsDecided(s: string, t: string)
    ensures Lower(Strip(s)) == Lower(Strip(t)) <==> SameName(s, t)
  {
    hide Strip, Lower, Trimmed, SameButCase;
    forall x { StripIsTrimmed(s, x); }
    forall x { StripIsTrimmed(t, x); }
    LowerDecides(Strip(s), Strip(t));
  }

  lemma NormalisedIsTheSameName(s: string)
    ensures SameName(Lower(Strip(s)), s)
  {
    hide Strip, Lower, Trimmed;
    var t := Strip(s);
    StripTrims(s);
    StripIsTrimmed(s, t);
    LowerKeepsTrim(t);
    TrimmedStays(Lower(t));
  }

  lemma TrimmedStays(t: string)
    requires Trim(t)
    ensures Trimmed(t, t)
  {
    assert AllSpace("") && t == "" + t + "";
  }

  lemma LowerKeepsTrim(t: string)
    requires Trim(t)
    ensures Trim(Lower(t)) && SameButCase(Lower(t), t)
  {}

  /** The same text, white space at the ends aside. */
  ghost predicate SameInside(s: string, t: string) {
    exists x :: Trimmed(s, x) && Trimmed(t, x)
  }

  lemma SameInsideIsDecided(s: string, t: string)
    ensures Strip(s) == Strip(t) <==> SameInside(s, t)
  {
    hide Strip, Trimmed;
    forall x { StripIsTrimmed(s, x); }
    forall x { StripIsTrimmed(t, x); }
    if Strip(s) == Strip(t) {
      assert Trimmed(s, Strip(s)) && Trimmed(t, Strip(s));
    }
  }

  /** The same first n characters, white space at the ends aside. */
  ghost predicate SameOpening(s: string, t: string, n: nat) {
    exists x, y :: Trimmed(s, x) && Trimmed(t, y) && (x == y || (n <= |x| && n <= |y| && x[..n] == y[..n]))
  }
}
