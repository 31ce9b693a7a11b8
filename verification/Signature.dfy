/**
  `gita.agents.dedupe.compute_signature`: the string whose hash decides whether two
  decisions are "the same". SHA-256 is any function `sha256` without collisions.
 */
module Signature {
  import opened Common
  import opened Decisions
  import opened Names
  import opened Text

  const BODY_CAP := 200

  ghost predicate CollisionFree(sha256: string -> string) {
    forall x, y :: sha256(x) == sha256(y) ==> x == y
  }

  /** `_repo_for_signature`. */
  function Repo(d: Decision): Result<string, Exn> {
    if d.target.repo.None? || d.target.repo.value == "" then Failure(MissingRepo)
    else Success(Lower(Strip(d.target.repo.value)))
  }

  function IssueText(d: Decision): string {
    match d.target.issue
    case None => "None"
    case Some(n) => IntText(n)
  }

  function Title(d: Decision): string { Strip(Field(d.payload, "title")) }

  function Body(d: Decision): string {
    var body := Strip(Field(d.payload, "body"));
    if |body| <= BODY_CAP then body else body[..BODY_CAP]
  }

  function NonEmptyLabels(labels: seq<string>): seq<string> {
    if |labels| == 0 then []
    else (if labels[0] == "" then [] else [labels[0]]) + NonEmptyLabels(labels[1..])
  }

  predicate Keyed(d: Decision) { d.action == "create_issue" && d.payload.signatureKeys != [] }

  predicate HasShape(action: string) {
    action in {"create_issue", "comment", "close_issue", "edit_issue", "add_label", "remove_label",
               "create_branch", "update_file", "open_pr"}
  }

  /** What follows "<repo>\n<action>\n" in the hashed material. */
  function Tail(d: Decision, sha256: string -> string): string
    requires HasShape(d.action)
  {
    if d.action == "create_issue" then
      if Keyed(d) then Join(Sort(d.payload.signatureKeys), '\n') else Lower(Title(d))
    else if d.action == "comment" then IssueText(d) + "\n" + Body(d)
    else if d.action == "close_issue" then IssueText(d)
    else if d.action == "edit_issue" then IssueText(d) + "\n" + (Title(d) + "\n" + Body(d))
    else if d.action == "add_label" then IssueText(d) + "\n" + Join(Sort(NonEmptyLabels(d.payload.labels)), ',')
    else if d.action == "remove_label" then IssueText(d) + "\n" + Field(d.payload, "label")
    else if d.action == "create_branch" then Field(d.payload, "ref") + "\n" + Field(d.payload, "base_sha")
    else if d.action == "update_file" then
      Field(d.payload, "branch") + "\n" + (Field(d.payload, "path") + "\n" + sha256(Field(d.payload, "content")))
    else Field(d.payload, "head") + "\n" + Field(d.payload, "base")
  }

  function Material(repo: string, d: Decision, sha256: string -> string): string
    requires HasShape(d.action)
  {
    repo + "\n" + (d.action + "\n" + Tail(d, sha256))
  }

  /** `compute_signature`. */
  function Compute(d: Decision, sha256: string -> string): Result<string, Exn> {
    match Repo(d)
    case Failure(e) => Failure(e)
    case Success(repo) =>
      if HasShape(d.action) then Success(sha256(Material(repo, d, sha256)))
      else Failure(NoSignatureShape(d.action))
  }

  // ------------------------------------------------------------------
  // The identity the signature stands for, stated without any joining
  // ------------------------------------------------------------------

  datatype Identity =
    | IssueByCitations(repo: string, keys: multiset<string>)
    | IssueByTitle(repo: string, title: string)
    | CommentOn(repo: string, issue: Option<int>, body: string)
    | Closing(repo: string, issue: Option<int>)
    | Edit(repo: string, issue: Option<int>, title: string, body: string)
    | Labelling(repo: string, issue: Option<int>, labels: multiset<string>)
    | Unlabelling(repo: string, issue: Option<int>, name: string)
    | Branch(repo: string, ref: string, baseSha: string)
    | File(repo: string, branch: string, path: string, content: string)
    | PullRequest(repo: string, head: string, base: string)

  function IdentityOf(d: Decision): Identity
    requires Repo(d).Success? && HasShape(d.action)
  {
    var repo := Repo(d).value;
    if d.action == "create_issue" then
      if Keyed(d) then IssueByCitations(repo, multiset(d.payload.signatureKeys))
      else IssueByTitle(repo, Lower(Title(d)))
    else if d.action == "comment" then CommentOn(repo, d.target.issue, Body(d))
    else if d.action == "close_issue" then Closing(repo, d.target.issue)
    else if d.action == "edit_issue" then Edit(repo, d.target.issue, Title(d), Body(d))
    else if d.action == "add_label" then Labelling(repo, d.target.issue, multiset(NonEmptyLabels(d.payload.labels)))
    else if d.action == "remove_label" then Unlabelling(repo, d.target.issue, Field(d.payload, "label"))
    else if d.action == "create_branch" then Branch(repo, Field(d.payload, "ref"), Field(d.payload, "base_sha"))
    else if d.action == "update_file" then
      File(repo, Field(d.payload, "branch"), Field(d.payload, "path"), Field(d.payload, "content"))
    else PullRequest(repo, Field(d.payload, "head"), Field(d.payload, "base"))
  }

  /**
    No field that is followed by another one holds its separator. The last field of each
    shape (a title, a body, a label, a base) is unrestricted.
   */
  predicate CleanInside(d: Decision)
    requires Repo(d).Success?
  {
    && Without(Repo(d).value, '\n')
    && (Keyed(d) ==> forall i :: 0 <= i < |d.payload.signatureKeys| ==> Without(d.payload.signatureKeys[i], '\n'))
    && (d.action == "edit_issue" ==> Without(Title(d), '\n'))
    && (d.action == "add_label" ==> forall i :: 0 <= i < |d.payload.labels| ==> Without(d.payload.labels[i], ','))
    && (d.action == "create_branch" ==> Without(Field(d.payload, "ref"), '\n'))
    && (d.action == "update_file" ==>
          Without(Field(d.payload, "branch"), '\n') && Without(Field(d.payload, "path"), '\n'))
    && (d.action == "open_pr" ==> Without(Field(d.payload, "head"), '\n'))
  }

  /**
    What makes two decisions the same, told by their fields as they were given: names count
    up to case and outer white space, bodies by their first 200 characters, labels as a
    multiset without the empty one.
   */
  ghost predicate SameIdentity(a: Decision, b: Decision)
    requires a.target.repo.Some? && b.target.repo.Some?
  {
    && SameName(a.target.repo.value, b.target.repo.value) && a.action == b.action
    && (a.action in {"comment", "close_issue", "edit_issue", "add_label", "remove_label"} ==>
          a.target.issue == b.target.issue)
    && (a.action == "create_issue" ==>
          if Keyed(a) then Keyed(b) && multiset(a.payload.signatureKeys) == multiset(b.payload.signatureKeys)
          else !Keyed(b) && SameName(Field(a.payload, "title"), Field(b.payload, "title")))
    && (a.action == "edit_issue" ==> SameInside(Field(a.payload, "title"), Field(b.payload, "title")))
    && (a.action in {"comment", "edit_issue"} ==>
          SameOpening(Field(a.payload, "body"), Field(b.payload, "body"), 200))
    && (a.action == "add_label" ==>
          forall l :: l != "" ==> multiset(a.payload.labels)[l] == multiset(b.payload.labels)[l])
    && forall name :: name in FieldsOf(a.action) ==> Field(a.payload, name) == Field(b.payload, name)
  }

  /** The payload entries that count as they are. */
  function FieldsOf(action: string): set<string> {
    if action == "remove_label" then {"label"}
    else if action == "create_branch" then {"ref", "base_sha"}
    else if action == "update_file" then {"branch", "path", "content"}
    else if action == "open_pr" then {"head", "base"}
    else {}
  }

  // ------------------------------------------------------------------
  // Lemmas
  // ------------------------------------------------------------------

  lemma BodyIsDecided(a: Decision, b: Decision)
    ensures Body(a) == Body(b) <==> SameOpening(Field(a.payload, "body"), Field(b.payload, "body"), 200)
  {
    hide Strip, Trimmed, Field;
    var s, t := Field(a.payload, "body"), Field(b.payload, "body");
    forall x { StripIsTrimmed(s, x); }
    forall x { StripIsTrimmed(t, x); }
    var x, y := Strip(s), Strip(t);
    if 200 <= |x| && 200 <= |y| {
      assert (if |x| == 200 then x else x[..200]) == x[..200];
      assert (if |y| == 200 then y else y[..200]) == y[..200];
    }
  }

  lemma {:induction false} LabelsWithoutEmpty(labels: seq<string>, l: string)
    ensures multiset(NonEmptyLabels(labels))[l] == if l == "" then 0 else multiset(labels)[l]
  {
    if |labels| > 0 {
      LabelsWithoutEmpty(labels[1..], l);
      assert labels == [labels[0]] + labels[1..];
    }
  }

  lemma LabelsAreDecided(x: seq<string>, y: seq<string>)
    ensures multiset(NonEmptyLabels(x)) == multiset(NonEmptyLabels(y))
       <==> forall l :: l != "" ==> multiset(x)[l] == multiset(y)[l]
  {
    hide NonEmptyLabels;
    forall l { LabelsWithoutEmpty(x, l); }
    forall l { LabelsWithoutEmpty(y, l); }
  }

  /** The identity of a decision is made of its fields as they were given. */
  lemma IdentityIsDecided(a: Decision, b: Decision)
    requires Repo(a).Success? && HasShape(a.action) && Repo(b).Success? && HasShape(b.action)
    ensures IdentityOf(a) == IdentityOf(b) <==> SameIdentity(a, b)
  {
    hide SameIdentity, IdentityOf, Repo;
    if IdentityOf(a) == IdentityOf(b) {
      IdentityHolds(a, b);
    }
    if a.action != b.action {
      OneAction(a, b);
    } else if a.action == "create_issue" {
      IssueIsDecided(a, b);
    } else if a.action in {"comment", "edit_issue"} {
      TextIsDecided(a, b);
    } else {
      FieldsAreDecided(a, b);
    }
  }

  lemma OneAction(a: Decision, b: Decision)
    requires Repo(a).Success? && Repo(b).Success? && a.action != b.action
    ensures !SameIdentity(a, b)
  {}

  lemma IssueIsDecided(a: Decision, b: Decision)
    requires Repo(a).Success? && Repo(b).Success? && a.action == b.action == "create_issue"
    ensures IdentityOf(a) == IdentityOf(b) <==> SameIdentity(a, b)
  {
    hide Lower, Strip, SameName, SameInside, SameOpening, Field, NonEmptyLabels, Body;
    SameNameIsDecided(a.target.repo.value, b.target.repo.value);
    SameNameIsDecided(Field(a.payload, "title"), Field(b.payload, "title"));
  }

  lemma TextIsDecided(a: Decision, b: Decision)
    requires Repo(a).Success? && Repo(b).Success? && a.action == b.action && a.action in {"comment", "edit_issue"}
    ensures IdentityOf(a) == IdentityOf(b) <==> SameIdentity(a, b)
  {
    hide Lower, Strip, SameName, SameInside, SameOpening, Field, NonEmptyLabels, Body;
    SameNameIsDecided(a.target.repo.value, b.target.repo.value);
    SameInsideIsDecided(Field(a.payload, "title"), Field(b.payload, "title"));
    BodyIsDecided(a, b);
  }

  lemma FieldsAreDecided(a: Decision, b: Decision)
    requires Repo(a).Success? && Repo(b).Success? && a.action == b.action && HasShape(a.action)
    requires a.action !in {"create_issue", "comment", "edit_issue"}
    ensures IdentityOf(a) == IdentityOf(b) <==> SameIdentity(a, b)
  {
    hide Lower, Strip, SameName, SameInside, SameOpening, Field, NonEmptyLabels, Body;
    SameNameIsDecided(a.target.repo.value, b.target.repo.value);
    LabelsAreDecided(a.payload.labels, b.payload.labels);
  }

  lemma ShapesAreClean(action: string)
    requires HasShape(action)
    ensures Without(action, '\n')
  {}

  lemma IssueTextInjective(a: Decision, b: Decision)
    ensures IssueText(a) == IssueText(b) <==> a.target.issue == b.target.issue
    ensures Without(IssueText(a), '\n')
  {
    if a.target.issue.Some? {
      IntTextWithout(a.target.issue.value, '\n');
      IntTextWithout(a.target.issue.value, 'N');
    }
    if b.target.issue.Some? {
      IntTextWithout(b.target.issue.value, 'N');
    }
    assert "None"[0] == 'N';
    if a.target.issue.Some? && b.target.issue.Some? {
      IntTextInjective(a.target.issue.value, b.target.issue.value);
    }
  }

  /** Two sorted, joined lists are equal exactly when the multisets are. */
  lemma SortedJoinCanonical(a: seq<string>, b: seq<string>, sep: char)
    requires |a| >= 1 && |b| >= 1
    requires forall i :: 0 <= i < |a| ==> Without(a[i], sep)
    requires forall i :: 0 <= i < |b| ==> Without(b[i], sep)
    ensures Join(Sort(a), sep) == Join(Sort(b), sep) <==> multiset(a) == multiset(b)
  {
    SortSorts(a);
    SortSorts(b);
    SortKeeps(a, sep);
    SortKeeps(b, sep);
    JoinInjective(Sort(a), Sort(b), sep);
    SortCanonical(a, b);
  }

  lemma SortKeeps(a: seq<string>, sep: char)
    requires forall i :: 0 <= i < |a| ==> Without(a[i], sep)
    ensures forall i :: 0 <= i < |Sort(a)| ==> Without(Sort(a)[i], sep)
  {
    SortSorts(a);
    forall i | 0 <= i < |Sort(a)| ensures Without(Sort(a)[i], sep) {
      assert Sort(a)[i] in multiset(a);
    }
  }

  lemma {:induction false} NonEmptyLabelsKeep(labels: seq<string>, sep: char)
    requires forall i :: 0 <= i < |labels| ==> Without(labels[i], sep)
    ensures forall i :: 0 <= i < |NonEmptyLabels(labels)| ==>
              NonEmptyLabels(labels)[i] != "" && Without(NonEmptyLabels(labels)[i], sep)
  {
    if |labels| > 0 {
      NonEmptyLabelsKeep(labels[1..], sep);
    }
  }

  /** With blank labels dropped, even the empty list joins to a text of its own. */
  lemma LabelsCanonical(a: seq<string>, b: seq<string>)
    requires forall i :: 0 <= i < |a| ==> Without(a[i], ',')
    requires forall i :: 0 <= i < |b| ==> Without(b[i], ',')
    ensures Join(Sort(NonEmptyLabels(a)), ',') == Join(Sort(NonEmptyLabels(b)), ',')
       <==> multiset(NonEmptyLabels(a)) == multiset(NonEmptyLabels(b))
  {
    NonEmptyLabelsKeep(a, ',');
    NonEmptyLabelsKeep(b, ',');
    var x, y := NonEmptyLabels(a), NonEmptyLabels(b);
    SortSorts(x);
    SortSorts(y);
    if |x| >= 1 && |y| >= 1 {
      SortedJoinCanonical(x, y, ',');
    } else if |x| >= 1 {
      JoinNonEmpty(x);
    } else if |y| >= 1 {
      JoinNonEmpty(y);
    }
  }

  lemma JoinNonEmpty(x: seq<string>)
    requires |x| >= 1 && forall i :: 0 <= i < |x| ==> x[i] != ""
    ensures Join(Sort(x), ',') != "" && multiset(x) != multiset{}
  {
    SortSorts(x);
    assert Sort(x)[0] in multiset(x);
    assert x[0] in multiset(x);
  }

  /** Same action, same kind of create_issue: the tails agree exactly when the identities do. */
  lemma TailDecides(a: Decision, b: Decision, sha256: string -> string)
    requires CollisionFree(sha256)
    requires Repo(a).Success? && Repo(b).Success? && Repo(a) == Repo(b)
    requires HasShape(a.action) && a.action == b.action
    requires CleanInside(a) && CleanInside(b)
    requires Keyed(a) == Keyed(b)
    ensures Tail(a, sha256) == Tail(b, sha256) <==> IdentityOf(a) == IdentityOf(b)
  {
    IssueTextInjective(a, b);
    IssueTextInjective(b, a);
    var ia, ib := IssueText(a), IssueText(b);
    if Keyed(a) {
      SortedJoinCanonical(a.payload.signatureKeys, b.payload.signatureKeys, '\n');
    } else if a.action == "comment" {
      CutUnique(ia, Body(a), ib, Body(b), '\n');
    } else if a.action == "edit_issue" {
      CutUnique(ia, Title(a) + "\n" + Body(a), ib, Title(b) + "\n" + Body(b), '\n');
      CutUnique(Title(a), Body(a), Title(b), Body(b), '\n');
    } else if a.action == "add_label" {
      CutUnique(ia, Join(Sort(NonEmptyLabels(a.payload.labels)), ','),
                ib, Join(Sort(NonEmptyLabels(b.payload.labels)), ','), '\n');
      LabelsCanonical(a.payload.labels, b.payload.labels);
    } else if a.action == "remove_label" {
      CutUnique(ia, Field(a.payload, "label"), ib, Field(b.payload, "label"), '\n');
    } else if a.action == "create_branch" {
      CutUnique(Field(a.payload, "ref"), Field(a.payload, "base_sha"),
                Field(b.payload, "ref"), Field(b.payload, "base_sha"), '\n');
    } else if a.action == "update_file" {
      var ha, hb := sha256(Field(a.payload, "content")), sha256(Field(b.payload, "content"));
      CutUnique(Field(a.payload, "branch"), Field(a.payload, "path") + "\n" + ha,
                Field(b.payload, "branch"), Field(b.payload, "path") + "\n" + hb, '\n');
      CutUnique(Field(a.payload, "path"), ha, Field(b.payload, "path"), hb, '\n');
    } else if a.action == "open_pr" {
      CutUnique(Field(a.payload, "head"), Field(a.payload, "base"),
                Field(b.payload, "head"), Field(b.payload, "base"), '\n');
    }
  }

  /** Equal signatures exactly when same repo, same action, same tail. */
  lemma MaterialDecides(a: Decision, b: Decision, sha256: string -> string)
    requires CollisionFree(sha256)
    requires Compute(a, sha256).Success? && Compute(b, sha256).Success?
    requires Without(Repo(a).value, '\n') && Without(Repo(b).value, '\n')
    ensures Compute(a, sha256) == Compute(b, sha256)
       <==> Repo(a) == Repo(b) && a.action == b.action && Tail(a, sha256) == Tail(b, sha256)
  {
    ShapesAreClean(a.action);
    ShapesAreClean(b.action);
    CutUnique(Repo(a).value, a.action + "\n" + Tail(a, sha256), Repo(b).value, b.action + "\n" + Tail(b, sha256), '\n');
    CutUnique(a.action, Tail(a, sha256), b.action, Tail(b, sha256), '\n');
  }

  /**
    The signature is the identity: equal signatures exactly when repository, action and the
    action's own fields agree, citation- and title-based create_issue being kept apart.
   */
  lemma SignatureIsIdentity(a: Decision, b: Decision, sha256: string -> string)
    requires CollisionFree(sha256)
    requires Compute(a, sha256).Success? && Compute(b, sha256).Success?
    requires CleanInside(a) && CleanInside(b)
    requires a.action == b.action == "create_issue" ==> Keyed(a) == Keyed(b)
    ensures Compute(a, sha256) == Compute(b, sha256) <==> SameIdentity(a, b)
  {
    hide SameIdentity;
    IdentityIsDecided(a, b);
    if IdentityOf(a) == IdentityOf(b) {
      IdentityHolds(a, b);
    }
    MaterialDecides(a, b, sha256);
    assert HasShape(a.action) && HasShape(b.action);
    if Repo(a) == Repo(b) && a.action == b.action {
      TailDecides(a, b, sha256);
    }
  }

  lemma IdentityHolds(a: Decision, b: Decision)
    requires Repo(a).Success? && HasShape(a.action) && Repo(b).Success? && HasShape(b.action)
    requires IdentityOf(a) == IdentityOf(b)
    ensures Repo(a) == Repo(b) && a.action == b.action
  {
    hide Repo, Title, Body, Field, NonEmptyLabels, Lower;
  }

  /**
    The case left out above, exactly: a citation-based and a title-based create_issue
    collide when, and only when, the title spells the sorted citations.
   */
  lemma MixedIssueCollision(keyed: Decision, titled: Decision, sha256: string -> string)
    requires CollisionFree(sha256)
    requires Compute(keyed, sha256).Success? && Compute(titled, sha256).Success?
    requires Keyed(keyed) && titled.action == "create_issue" && !Keyed(titled)
    requires CleanInside(keyed) && CleanInside(titled)
    ensures Compute(keyed, sha256) == Compute(titled, sha256)
       <==> Repo(keyed) == Repo(titled) && Lower(Title(titled)) == Join(Sort(keyed.payload.signatureKeys), '\n')
  {
    MaterialDecides(keyed, titled, sha256);
  }

  /** An identity is safe when no decision of the same action and another identity shares its signature. */
  ghost predicate Unambiguous(d: Decision, sha256: string -> string)
    requires Compute(d, sha256).Success?
  {
    forall e: Decision ::
      e.action == d.action && Repo(e) == Repo(d) && Compute(e, sha256) == Compute(d, sha256)
      ==> IdentityOf(e) == IdentityOf(d)
  }

  function TwoFields(d: Decision): (string, string) {
    if d.action == "create_branch" then (Field(d.payload, "ref"), Field(d.payload, "base_sha"))
    else (Field(d.payload, "head"), Field(d.payload, "base"))
  }

  function WithTwoFields(d: Decision, x: string, y: string): (e: Decision)
    requires d.action in {"create_branch", "open_pr"}
    ensures TwoFields(e) == (x, y) && e.action == d.action && e.target == d.target
  {
    if d.action == "create_branch" then d.(payload := Payload(map["ref" := x, "base_sha" := y], [], []))
    else d.(payload := Payload(map["head" := x, "base" := y], [], []))
  }

  /**
    A new line inside a field is what makes a signature ambiguous: a branch or pull request
    is identified by its signature exactly when neither of its two fields holds one.
   */
  lemma NewlineIsTheAmbiguity(d: Decision, sha256: string -> string)
    requires CollisionFree(sha256)
    requires Compute(d, sha256).Success?
    requires d.action in {"create_branch", "open_pr"}
    ensures Unambiguous(d, sha256) <==> Without(TwoFields(d).0, '\n') && Without(TwoFields(d).1, '\n')
  {
    var (x, y) := TwoFields(d);
    if Without(x, '\n') && Without(y, '\n') {
      forall e: Decision | e.action == d.action && Repo(e) == Repo(d) && Compute(e, sha256) == Compute(d, sha256)
        ensures IdentityOf(e) == IdentityOf(d)
      {
        var (u, v) := TwoFields(e);
        EqualTails(e, d, sha256);
        OneNewline(x, y, u, v);
      }
    } else {
      var u, v := OtherCut(x, y);
      var e := WithTwoFields(d, u, v);
      assert Tail(e, sha256) == u + "\n" + v == x + "\n" + y == Tail(d, sha256);
      assert IdentityOf(e) != IdentityOf(d);
    }
  }

  lemma EqualTails(a: Decision, b: Decision, sha256: string -> string)
    requires CollisionFree(sha256)
    requires Compute(a, sha256).Success? && Compute(a, sha256) == Compute(b, sha256)
    requires Repo(a) == Repo(b) && a.action == b.action
    ensures Tail(a, sha256) == Tail(b, sha256)
  {
    hide Tail, Repo;
    var head := Repo(a).value + "\n" + (a.action + "\n");
    assert Material(Repo(a).value, a, sha256) == head + Tail(a, sha256);
    assert Material(Repo(b).value, b, sha256) == head + Tail(b, sha256);
    assert (head + Tail(a, sha256))[|head|..] == Tail(a, sha256);
    assert (head + Tail(b, sha256))[|head|..] == Tail(b, sha256);
  }

  lemma OneNewline(x: string, y: string, u: string, v: string)
    requires Without(x, '\n') && Without(y, '\n')
    requires u + "\n" + v == x + "\n" + y
    ensures u == x && v == y
  {
    var s := x + "\n" + y;
    assert forall k :: 0 <= k < |s| && k != |x| ==> s[k] != '\n';
    assert (u + "\n" + v)[|u|] == '\n';
    assert |u| == |x|;
    assert u == s[..|x|] == x;
    assert v == s[|x| + 1..] == y;
  }

  lemma OtherCut(x: string, y: string) returns (u: string, v: string)
    requires !Without(x, '\n') || !Without(y, '\n')
    ensures u + "\n" + v == x + "\n" + y && (u, v) != (x, y)
  {
    var s := x + "\n" + y;
    var k: nat;
    if !Without(x, '\n') {
      k :| 0 <= k < |x| && x[k] == '\n';
    } else {
      var j :| 0 <= j < |y| && y[j] == '\n';
      k := |x| + 1 + j;
    }
    u, v := s[..k], s[k + 1..];
    assert s == u + [s[k]] + v && s[k] == '\n';
    assert |u| != |x|;
  }
}
