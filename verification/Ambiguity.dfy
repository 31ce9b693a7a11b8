/**
  Which decisions share their signature with a different one? `Signature` shows that clean
  inner fields are enough; here are exact conditions for files, labels and citations.
 */
module Ambiguity {
  import opened Common
  import opened Decisions
  import opened Text
  import opened Signature

  /** Replacing the payload keeps repository and action; with the tail, it keeps the signature. */
  lemma SameTailSameSignature(d: Decision, e: Decision, sha256: string -> string)
    requires Compute(d, sha256).Success? && e.action == d.action && e.target == d.target
    requires HasShape(d.action) && Tail(e, sha256) == Tail(d, sha256)
    ensures Repo(d).Success? && Repo(e) == Repo(d) && Compute(e, sha256) == Compute(d, sha256)
  {
    hide Tail;
  }

  /** A decision of another identity under the same signature. */
  lemma Collides(d: Decision, e: Decision, sha256: string -> string)
    requires Compute(d, sha256).Success? && e.action == d.action && HasShape(d.action)
    requires Repo(d).Success? && Repo(e) == Repo(d) && Compute(e, sha256) == Compute(d, sha256)
    requires IdentityOf(e) != IdentityOf(d)
    ensures !Unambiguous(d, sha256)
    ensures Keyed(d) && Keyed(e) ==> !CitesAlone(d, sha256)
  {
    hide Compute, IdentityOf;
  }

  // ------------------------------------------------------------------
  // update_file
  // ------------------------------------------------------------------

  /** With a hex digest, a file update is identified exactly when branch and path hold no line feed. */
  lemma FileIsIdentifiedExactlyWhen(d: Decision, sha256: string -> string)
    requires CollisionFree(sha256) && forall x :: Without(sha256(x), '\n')
    requires Compute(d, sha256).Success? && d.action == "update_file"
    ensures Unambiguous(d, sha256)
       <==> Without(Field(d.payload, "branch"), '\n') && Without(Field(d.payload, "path"), '\n')
  {
    var b, p := Field(d.payload, "branch"), Field(d.payload, "path");
    if Without(b, '\n') && Without(p, '\n') {
      forall e: Decision | e.action == d.action && Repo(e) == Repo(d) && Compute(e, sha256) == Compute(d, sha256)
        ensures IdentityOf(e) == IdentityOf(d)
      {
        EqualTails(e, d, sha256);
        SameFile(d, e, sha256);
      }
    } else {
      OtherFile(d, sha256);
    }
  }

  lemma SameFile(d: Decision, e: Decision, sha256: string -> string)
    requires CollisionFree(sha256) && forall x :: Without(sha256(x), '\n')
    requires d.action == e.action == "update_file" && Tail(e, sha256) == Tail(d, sha256)
    requires Without(Field(d.payload, "branch"), '\n') && Without(Field(d.payload, "path"), '\n')
    ensures Field(e.payload, "branch") == Field(d.payload, "branch")
    ensures Field(e.payload, "path") == Field(d.payload, "path")
    ensures Field(e.payload, "content") == Field(d.payload, "content")
  {
    var b, p, h := Field(d.payload, "branch"), Field(d.payload, "path"), sha256(Field(d.payload, "content"));
    var b', p', h' := Field(e.payload, "branch"), Field(e.payload, "path"), sha256(Field(e.payload, "content"));
    assert b + "\n" + (p + "\n" + h) == b + "\n" + p + ['\n'] + h;
    assert b' + "\n" + (p' + "\n" + h') == b' + "\n" + p' + ['\n'] + h';
    LastCutUnique(b' + "\n" + p', h', b + "\n" + p, h, '\n');
    OneNewline(b, p, b', p');
  }

  lemma OtherFile(d: Decision, sha256: string -> string)
    requires Compute(d, sha256).Success? && d.action == "update_file"
    requires !Without(Field(d.payload, "branch"), '\n') || !Without(Field(d.payload, "path"), '\n')
    ensures !Unambiguous(d, sha256)
  {
    var b, p, content := Field(d.payload, "branch"), Field(d.payload, "path"), Field(d.payload, "content");
    var u, v := OtherCut(b, p);
    var e := d.(payload := Payload(map["branch" := u, "path" := v, "content" := content], [], []));
    assert u + "\n" + (v + "\n" + sha256(content)) == u + "\n" + v + ("\n" + sha256(content));
    assert b + "\n" + (p + "\n" + sha256(content)) == b + "\n" + p + ("\n" + sha256(content));
    assert Field(e.payload, "branch") == u && Field(e.payload, "path") == v && Field(e.payload, "content") == content;
    SameTailSameSignature(d, e, sha256);
    assert IdentityOf(e) != IdentityOf(d);
  }

  // ------------------------------------------------------------------
  // edit_issue
  // ------------------------------------------------------------------

  /** What `strip` and the cap can leave of a body. */
  predicate IsBody(v: string) {
    |v| <= BODY_CAP && (v != "" ==> !IsSpace(v[0]) && (|v| == BODY_CAP || !IsSpace(v[|v| - 1])))
  }

  function TitleAndBody(d: Decision): string { Title(d) + "\n" + Body(d) }

  /** Another line feed that has a stripped title before it and a body behind it. */
  ghost predicate OtherEdit(d: Decision, n: nat) {
    var s := TitleAndBody(d);
    n < |s| && n != |Title(d)| && s[n] == '\n' && Trim(s[..n]) && IsBody(s[n + 1..])
  }

  lemma BodiesAreBodies(d: Decision)
    ensures Trim(Title(d)) && IsBody(Body(d))
  {
    StripTrims(Field(d.payload, "title"));
    StripTrims(Field(d.payload, "body"));
  }

  /** An edit is identified exactly when its title and body, joined, can be cut at one line feed only. */
  lemma EditIsIdentifiedExactlyWhen(d: Decision, sha256: string -> string)
    requires CollisionFree(sha256) && Compute(d, sha256).Success? && d.action == "edit_issue"
    ensures Unambiguous(d, sha256) <==> forall n: nat :: !OtherEdit(d, n)
  {
    hide Title, Body;
    if n: nat :| OtherEdit(d, n) {
      EditCollides(d, n, sha256);
    } else {
      forall e: Decision | e.action == d.action && Repo(e) == Repo(d) && Compute(e, sha256) == Compute(d, sha256)
        ensures IdentityOf(e) == IdentityOf(d)
      {
        EqualTails(e, d, sha256);
        IssueTextInjective(e, d);
        IssueTextInjective(d, e);
        CutUnique(IssueText(e), TitleAndBody(e), IssueText(d), TitleAndBody(d), '\n');
        SameEdit(d, e);
      }
    }
  }

  lemma SameEdit(d: Decision, e: Decision)
    requires TitleAndBody(d) == TitleAndBody(e) && forall n: nat :: !OtherEdit(d, n)
    ensures Title(d) == Title(e) && Body(d) == Body(e)
  {
    hide Title, Body, IsBody, Trim;
    BodiesAreBodies(e);
    var s, n := TitleAndBody(e), |Title(e)|;
    assert s[n] == '\n' && s[..n] == Title(e) && s[n + 1..] == Body(e);
    assert !OtherEdit(d, n);
    assert TitleAndBody(d)[..|Title(d)|] == Title(d) && TitleAndBody(d)[|Title(d)| + 1..] == Body(d);
  }

  /** A body the program would produce, and a text it would produce it from. */
  lemma RawBody(v: string) returns (raw: string)
    requires IsBody(v)
    ensures var b := Strip(raw); (if |b| <= BODY_CAP then b else b[..BODY_CAP]) == v
  {
    if v != "" && IsSpace(v[|v| - 1]) {
      raw := v + "x";
      assert raw[0] == v[0] && raw[|raw| - 1] == 'x' && Strip(raw) == raw && raw[..|v|] == v;
    } else {
      raw := v;
    }
  }

  lemma EditCollides(d: Decision, n: nat, sha256: string -> string)
    requires Compute(d, sha256).Success? && d.action == "edit_issue" && OtherEdit(d, n)
    ensures !Unambiguous(d, sha256)
  {
    hide Compute, Repo, Title, Body, OtherEdit, Unambiguous;
    var e := AnotherEdit(d, n);
    TailOfEdit(d, sha256);
    TailOfEdit(e, sha256);
    SameTailSameSignature(d, e, sha256);
    Collides(d, e, sha256);
  }

  /** An edit of the same issue with another title and the same joined text. */
  lemma AnotherEdit(d: Decision, n: nat) returns (e: Decision)
    requires d.action == "edit_issue" && OtherEdit(d, n)
    ensures e.action == d.action && e.target == d.target
    ensures TitleAndBody(e) == TitleAndBody(d) && Title(e) != Title(d)
  {
    hide Strip, IsBody, Trim;
    var s := TitleAndBody(d);
    var raw := RawBody(s[n + 1..]);
    e := d.(payload := Payload(map["title" := s[..n], "body" := raw], [], []));
    TrimIsStripped(s[..n]);
    assert s == s[..n] + "\n" + s[n + 1..];
  }

  lemma TailOfEdit(d: Decision, sha256: string -> string)
    requires d.action == "edit_issue"
    ensures Tail(d, sha256) == IssueText(d) + "\n" + TitleAndBody(d)
  {
    hide Title, Body;
    assert Title(d) + "\n" + Body(d) == Title(d) + ("\n" + Body(d));
  }

  lemma TrimIsStripped(u: string)
    requires Trim(u)
    ensures Strip(u) == u
  {}

  // ------------------------------------------------------------------
  // Sorted lists
  // ------------------------------------------------------------------

  /** At position p the text falls into two parts that are in order. */
  ghost predicate SortedCut(x: string, sep: char, p: nat) {
    p < |x| && x[p] == sep && LexLe(x[..p], x[p + 1..])
  }

  lemma {:induction false} PrefixLe(a: string, b: string)
    ensures LexLe(a, a + b)
  {
    if a != "" {
      assert (a + b)[1..] == a[1..] + b;
      PrefixLe(a[1..], b);
    }
  }

  lemma JoinHead(parts: seq<string>, sep: char)
    requires |parts| >= 2
    ensures Join(parts, sep) == parts[0] + [sep] + Join(parts[1..], sep)
    ensures Join(parts[1..], sep) == parts[1] + (if |parts| == 2 then "" else [sep] + Join(parts[2..], sep))
  {
    assert parts[1..][1..] == parts[2..];
  }

  /** A sorted list of two or more, joined, can be cut behind its first part. */
  lemma JoinedIsCut(parts: seq<string>, sep: char)
    requires |parts| >= 2 && Sorted(parts)
    ensures var x, p := Join(parts, sep), |parts[0]|;
            SortedCut(x, sep, p) && x[..p] == parts[0] && x[p + 1..] == Join(parts[1..], sep)
  {
    hide LexLe, Join;
    var rest := Join(parts[1..], sep);
    JoinHead(parts, sep);
    PrefixLe(parts[1], if |parts| == 2 then "" else [sep] + Join(parts[2..], sep));
    LexTransitive(parts[0], parts[1], rest);
    CutThere(parts[0], sep, rest);
  }

  lemma CutThere(a: string, sep: char, b: string)
    requires LexLe(a, b)
    ensures var x := a + [sep] + b; SortedCut(x, sep, |a|) && x[..|a|] == a && x[|a| + 1..] == b
  {
    hide LexLe;
    var x := a + [sep] + b;
    assert x[..|a|] == a && x[|a| + 1..] == b;
  }

  lemma SortOfOne(x: string)
    ensures Sort([x]) == [x] && Join([x], '\n') == x && Join([x], ',') == x
  {
    assert [x][1..] == [];
  }

  lemma SortOfTwo(x: string, y: string, sep: char)
    requires LexLe(x, y)
    ensures Sort([x, y]) == [x, y] && Join(Sort([x, y]), sep) == x + [sep] + y
  {
    SortOfOne(y);
    assert [x, y][1..] == [y];
  }

  // ------------------------------------------------------------------
  // Citations
  // ------------------------------------------------------------------

  /** No issue with other citations has this signature. */
  ghost predicate CitesAlone(d: Decision, sha256: string -> string)
    requires Compute(d, sha256).Success? && Keyed(d)
  {
    forall e: Decision :: Keyed(e) && Repo(e) == Repo(d) && Compute(e, sha256) == Compute(d, sha256)
      ==> IdentityOf(e) == IdentityOf(d)
  }

  /**
    Two or more citations share their signature with the one citation that spells them all;
    a single one is alone unless it can be cut at a line feed into two that are in order.
   */
  lemma CitesAloneExactlyWhen(d: Decision, sha256: string -> string)
    requires CollisionFree(sha256) && Compute(d, sha256).Success? && Keyed(d)
    ensures CitesAlone(d, sha256)
       <==> |d.payload.signatureKeys| == 1 && forall p: nat :: !SortedCut(d.payload.signatureKeys[0], '\n', p)
  {
    var keys := d.payload.signatureKeys;
    if |keys| > 1 {
      SortSorts(keys);
      SortOfOne(Join(Sort(keys), '\n'));
      WithKeys(d, [Join(Sort(keys), '\n')], sha256);
    } else if p: nat :| SortedCut(keys[0], '\n', p) {
      var x := keys[0];
      SortOfOne(x);
      SortOfTwo(x[..p], x[p + 1..], '\n');
      assert x[..p] + ['\n'] + x[p + 1..] == x && keys == [x];
      WithKeys(d, [x[..p], x[p + 1..]], sha256);
    } else {
      SortOfOne(keys[0]);
      assert keys == [keys[0]];
      forall e: Decision | Keyed(e) && Repo(e) == Repo(d) && Compute(e, sha256) == Compute(d, sha256)
        ensures IdentityOf(e) == IdentityOf(d)
      {
        EqualTails(e, d, sha256);
        OnlyItself(e.payload.signatureKeys, keys[0], '\n');
      }
    }
  }

  lemma OnlyItself(keys: seq<string>, x: string, sep: char)
    requires |keys| >= 1 && Join(Sort(keys), sep) == x && forall p: nat :: !SortedCut(x, sep, p)
    ensures keys == [x]
  {
    SortSorts(keys);
    if |keys| == 1 {
      SortOfOne(keys[0]);
      assert keys == [keys[0]];
    } else {
      JoinedIsCut(Sort(keys), sep);
    }
  }

  lemma WithKeys(d: Decision, keys: seq<string>, sha256: string -> string)
    requires Compute(d, sha256).Success? && Keyed(d)
    requires |keys| >= 1 && |keys| != |d.payload.signatureKeys|
    requires Join(Sort(keys), '\n') == Join(Sort(d.payload.signatureKeys), '\n')
    ensures !CitesAlone(d, sha256)
  {
    hide Sort, Join, Compute, Repo, CitesAlone;
    var e := d.(payload := d.payload.(signatureKeys := keys));
    assert Tail(e, sha256) == Tail(d, sha256);
    SameTailSameSignature(d, e, sha256);
    OtherSize(keys, d.payload.signatureKeys);
    Collides(d, e, sha256);
  }

  lemma OtherSize(a: seq<string>, b: seq<string>)
    requires |a| != |b|
    ensures multiset(a) != multiset(b)
  {
    assert |multiset(a)| == |a| && |multiset(b)| == |b|;
  }

  // ------------------------------------------------------------------
  // Labels
  // ------------------------------------------------------------------

  /** A comma inside the text, with two labels in order around it. */
  ghost predicate LabelCut(x: string, p: nat) { 0 < p && p + 1 < |x| && SortedCut(x, ',', p) }

  /** Two or more labels collide with the one that spells them all; one label only if a comma cuts it in order. */
  lemma LabelsAreIdentifiedExactlyWhen(d: Decision, sha256: string -> string)
    requires CollisionFree(sha256) && Compute(d, sha256).Success? && d.action == "add_label"
    ensures var labels := NonEmptyLabels(d.payload.labels);
            Unambiguous(d, sha256) <==> |labels| == 0 || (|labels| == 1 && forall p: nat :: !LabelCut(labels[0], p))
  {
    hide SortedCut, IdentityOf, Repo;
    var labels := NonEmptyLabels(d.payload.labels);
    LabelsAreNonEmpty(d.payload.labels);
    if |labels| > 1 {
      JoinNonEmpty(labels);
      SortOfOne(Join(Sort(labels), ','));
      WithLabels(d, [Join(Sort(labels), ',')], sha256);
    } else if |labels| == 1 && exists p: nat :: LabelCut(labels[0], p) {
      var x := labels[0];
      var p: nat :| LabelCut(x, p);
      SortOfOne(x);
      CutIsOrdered(x, ',', p);
      SortOfTwo(x[..p], x[p + 1..], ',');
      assert labels == [x];
      WithLabels(d, [x[..p], x[p + 1..]], sha256);
    } else {
      forall e: Decision | e.action == d.action && Repo(e) == Repo(d) && Compute(e, sha256) == Compute(d, sha256)
        ensures IdentityOf(e) == IdentityOf(d)
      {
        EqualTails(e, d, sha256);
        IssueTextInjective(e, d);
        IssueTextInjective(d, e);
        var mine := NonEmptyLabels(e.payload.labels);
        CutUnique(IssueText(e), Join(Sort(mine), ','), IssueText(d), Join(Sort(labels), ','), '\n');
        LabelsAreNonEmpty(e.payload.labels);
        OnlyThoseLabels(mine, labels);
        LabelsIdentify(d, e);
      }
    }
  }

  lemma CutIsOrdered(x: string, sep: char, p: nat)
    requires SortedCut(x, sep, p)
    ensures p < |x| && LexLe(x[..p], x[p + 1..]) && x[..p] + [sep] + x[p + 1..] == x
  {
    hide LexLe;
  }

  lemma LabelsIdentify(d: Decision, e: Decision)
    requires d.action == e.action == "add_label" && Repo(d).Success? && Repo(e) == Repo(d)
    requires d.target.issue == e.target.issue && NonEmptyLabels(e.payload.labels) == NonEmptyLabels(d.payload.labels)
    ensures IdentityOf(e) == IdentityOf(d)
  {
    hide Repo, NonEmptyLabels;
  }

  lemma {:induction false} LabelsAreNonEmpty(labels: seq<string>)
    ensures forall i :: 0 <= i < |NonEmptyLabels(labels)| ==> NonEmptyLabels(labels)[i] != ""
    ensures (forall i :: 0 <= i < |labels| ==> labels[i] != "") ==> NonEmptyLabels(labels) == labels
  {
    if |labels| > 0 {
      LabelsAreNonEmpty(labels[1..]);
      assert labels == [labels[0]] + labels[1..];
    }
  }

  lemma OnlyThoseLabels(mine: seq<string>, labels: seq<string>)
    requires forall i :: 0 <= i < |mine| ==> mine[i] != ""
    requires forall i :: 0 <= i < |labels| ==> labels[i] != ""
    requires |labels| == 0 || (|labels| == 1 && forall p: nat :: !LabelCut(labels[0], p))
    requires Join(Sort(mine), ',') == Join(Sort(labels), ',')
    ensures mine == labels
  {
    SortSorts(mine);
    if |labels| == 0 {
      if |mine| >= 1 {
        JoinNonEmpty(mine);
      }
    } else {
      var x := labels[0];
      SortOfOne(x);
      assert labels == [x];
      if |mine| == 1 {
        SortOfOne(mine[0]);
        assert mine == [mine[0]];
      } else if |mine| > 1 {
        ManyAreCut(mine, x);
      }
    }
  }

  lemma ManyAreCut(mine: seq<string>, x: string)
    requires |mine| > 1 && Join(Sort(mine), ',') == x && forall i :: 0 <= i < |mine| ==> mine[i] != ""
    ensures exists p: nat :: LabelCut(x, p)
  {
    SortSorts(mine);
    var sorted := Sort(mine);
    assert forall i :: 0 <= i < |sorted| ==> sorted[i] in multiset(mine);
    JoinedIsCut(sorted, ',');
    assert Join(sorted[1..], ',') != "" by { assert sorted[1..][0] == sorted[1] != ""; }
    assert LabelCut(x, |sorted[0]|);
  }

  lemma WithLabels(d: Decision, labels: seq<string>, sha256: string -> string)
    requires Compute(d, sha256).Success? && d.action == "add_label"
    requires |labels| != |NonEmptyLabels(d.payload.labels)| && forall i :: 0 <= i < |labels| ==> labels[i] != ""
    requires Join(Sort(labels), ',') == Join(Sort(NonEmptyLabels(d.payload.labels)), ',')
    ensures !Unambiguous(d, sha256)
  {
    hide Sort, Join, Compute, Repo, NonEmptyLabels, Unambiguous;
    var e := d.(payload := d.payload.(labels := labels));
    LabelsAreNonEmpty(labels);
    assert Tail(e, sha256) == Tail(d, sha256);
    SameTailSameSignature(d, e, sha256);
    OtherSize(labels, NonEmptyLabels(d.payload.labels));
    Collides(d, e, sha256);
  }
}
