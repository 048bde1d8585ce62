/** Two ways to say which answers a tag excludes: by the chain of folders above an answer, and
    by the tagged paths that are a prefix of it. */
module Exclusion {
  import opened Text

  const ROOT := "/"

  /** The names on a path, whatever slashes stand between or around them. */
  function Parts(path: string): seq<string> {
    NonEmpty(Split(path, '/'))
  }

  function PathOf(parts: seq<string>): string {
    "/" + Join(parts, '/')
  }

  /** A path as this application writes it: one slash in front of every part and no other. */
  predicate Normal(path: string) {
    path == PathOf(Parts(path))
  }

  /** The folders of the first `end`, `end - 1`, ... parts, down to the root. */
  function FoldersFrom(parts: seq<string>, end: nat): (f: seq<string>)
    requires end <= |parts|
    ensures forall x :: x in f <==> exists k :: 0 <= k <= end && x == PathOf(parts[..k])
  {
    if end == 0 then [PathOf(parts[..0])] else [PathOf(parts[..end])] + FoldersFrom(parts, end - 1)
  }

  /** Every folder above a path up to the root, nearest first. */
  function AncestorsOf(path: string): seq<string> {
    var parts := Parts(path);
    if parts == [] then [] else FoldersFrom(parts, |parts| - 1)
  }

  /** Segment rule: a tag covers a path when it is the path or stands in front of a slash of it. */
  predicate Covered(path: string, tagged: string) {
    tagged == ROOT || path == tagged || tagged + "/" <= path
  }

  function ExpectedExcluded(answers: seq<string>, tagged: set<string>): set<string> {
    set p | p in answers && exists t :: t in tagged && Covered(p, t)
  }

  function TagsAt(tags: map<string, set<string>>, node: string): set<string> {
    if node in tags then tags[node] else {}
  }

  function ExcludedByTags(answers: seq<string>, tags: map<string, set<string>>, name: string): set<string> {
    set p | p in answers && exists n :: n in [p] + AncestorsOf(p) && name in TagsAt(tags, n)
  }

  // ------------------------------------------------------------ the two agree

  ghost predicate CleanParts(parts: seq<string>) {
    forall i :: 0 <= i < |parts| ==> parts[i] != "" && '/' !in parts[i]
  }

  lemma PartsAreClean(path: string)
    ensures CleanParts(Parts(path))
  {
    JoinSplit(path, '/');
    var parts := Parts(path);
    forall i | 0 <= i < |parts| ensures '/' !in parts[i] {
      assert parts[i] in Split(path, '/');
    }
  }

  lemma {:induction false} JoinConcat(a: seq<string>, b: seq<string>)
    requires a != [] && b != []
    ensures Join(a + b, '/') == Join(a, '/') + "/" + Join(b, '/')
  {
    if |a| == 1 {
      assert (a + b)[1..] == b;
    } else {
      assert (a + b)[1..] == a[1..] + b;
      JoinConcat(a[1..], b);
    }
  }

  lemma JoinCons(a: seq<string>)
    requires |a| > 1
    ensures Join(a, '/') == a[0] + "/" + Join(a[1..], '/')
  {
  }

  lemma SplitCons(head: string, tail: string, rest: string)
    requires '/' !in head
    ensures Split(head + "/" + tail + "/" + rest, '/') == [head] + Split(tail + "/" + rest, '/')
  {
    hide Split;
    Associative(head + "/", tail, "/");
    Associative(head + "/", tail + "/", rest);
    SplitFirst(head, tail + "/" + rest, '/');
  }

  lemma {:induction false} SplitConcat(a: seq<string>, rest: string)
    requires a != [] && CleanParts(a)
    ensures Split(Join(a, '/') + "/" + rest, '/') == a + Split(rest, '/')
  {
    if |a| == 1 {
      SplitFirst(a[0], rest, '/');
    } else {
      hide Split, Join;
      JoinCons(a);
      SplitConcat(a[1..], rest);
      SplitCons(a[0], Join(a[1..], '/'), rest);
      assert [a[0]] + (a[1..] + Split(rest, '/')) == a + Split(rest, '/');
    }
  }

  /** A tag stands in front of a slash of a path exactly when it is one of its folders. */
  lemma PrefixIsFolder(path: seq<string>, tag: seq<string>)
    requires CleanParts(path) && CleanParts(tag) && tag != []
    ensures PathOf(tag) + "/" <= PathOf(path) <==> |tag| < |path| && tag == path[..|tag|]
  {
    if PathOf(tag) + "/" <= PathOf(path) {
      PrefixThenFolder(path, tag);
    }
    if |tag| < |path| && tag == path[..|tag|] {
      FolderThenPrefix(path, tag);
    }
  }

  lemma PrefixThenFolder(path: seq<string>, tag: seq<string>)
    requires CleanParts(path) && CleanParts(tag) && tag != []
    requires PathOf(tag) + "/" <= PathOf(path)
    ensures |tag| < |path| && tag == path[..|tag|]
  {
    hide Join, Split;
    var rest := PathOf(path)[|PathOf(tag) + "/"|..];
    assert Join(path, '/') == PathOf(path)[1..] && PathOf(path)[1..] == Join(tag, '/') + "/" + rest;
    SplitConcat(tag, rest);
    NotEmptyJoin(path, tag, rest);
    SplitJoin(path, '/');
  }

  lemma FolderThenPrefix(path: seq<string>, tag: seq<string>)
    requires CleanParts(path) && tag != [] && |tag| < |path| && tag == path[..|tag|]
    ensures PathOf(tag) + "/" <= PathOf(path)
  {
    hide Join;
    var rest := path[|tag|..];
    assert path == tag + rest;
    JoinConcat(tag, rest);
    assert PathOf(path) == (PathOf(tag) + "/") + Join(rest, '/');
  }

  lemma NotEmptyJoin(path: seq<string>, tag: seq<string>, rest: string)
    requires Join(path, '/') == Join(tag, '/') + "/" + rest
    ensures path != []
  {
  }

  lemma CoveredIsChain(p: string, t: string)
    requires Normal(p) && Normal(t)
    ensures Covered(p, t) <==> t in [p] + AncestorsOf(p)
  {
    var pp, tt := Parts(p), Parts(t);
    PartsAreClean(p);
    PartsAreClean(t);
    assert PathOf(pp[..0]) == ROOT;
    if tt == [] {
      assert t == ROOT;
    } else {
      PrefixIsFolder(pp, tt);
      if t in AncestorsOf(p) {
        var k :| 0 <= k <= |pp| - 1 && t == PathOf(pp[..k]);
        SamePath(tt, pp[..k]);
      }
    }
  }

  /** Different parts make different paths. */
  lemma SamePath(a: seq<string>, b: seq<string>)
    requires CleanParts(a) && CleanParts(b) && PathOf(a) == PathOf(b)
    ensures a == b
  {
    assert PathOf(a)[1..] == Join(a, '/') && PathOf(b)[1..] == Join(b, '/');
    if a == [] || b == [] {
      EmptyJoin(a);
      EmptyJoin(b);
    } else {
      SplitJoin(a, '/');
      SplitJoin(b, '/');
    }
  }

  lemma EmptyJoin(a: seq<string>)
    requires CleanParts(a)
    ensures Join(a, '/') == "" <==> a == []
  {
  }

  /** A tag covers a path exactly when it is a folder above it or the path itself: its names are
      the first names of the path. */
  lemma CoveredIsBeginning(path: seq<string>, tag: seq<string>)
    requires CleanParts(path) && CleanParts(tag)
    ensures Covered(PathOf(path), PathOf(tag)) <==> tag <= path
  {
    hide Parts, Join;
    RootIsEmpty(tag);
    assert tag <= path <==> tag == path || (|tag| < |path| && tag == path[..|tag|]);
    if tag != [] {
      PrefixIsFolder(path, tag);
      if PathOf(path) == PathOf(tag) {
        SamePath(path, tag);
      }
    }
  }

  lemma RootIsEmpty(parts: seq<string>)
    requires CleanParts(parts)
    ensures PathOf(parts) == ROOT <==> parts == []
  {
    EmptyJoin(parts);
    assert PathOf(parts)[1..] == Join(parts, '/') && ROOT[1..] == "";
  }

  lemma {:induction false} FoldersInOrder(parts: seq<string>, end: nat, i: nat)
    requires i <= end <= |parts|
    ensures |FoldersFrom(parts, end)| == end + 1 && FoldersFrom(parts, end)[i] == PathOf(parts[..end - i])
  {
    if end > 0 {
      FoldersInOrder(parts, end - 1, if i == 0 then 0 else i - 1);
    }
  }

  /** The folders above a path are its shorter beginnings, the longest first, down to the root. */
  lemma AncestorsInOrder(parts: seq<string>, i: nat)
    requires CleanParts(parts) && i < |parts|
    ensures |AncestorsOf(PathOf(parts))| == |parts|
    ensures AncestorsOf(PathOf(parts))[i] == PathOf(parts[..|parts| - 1 - i])
  {
    PartsOfPath(parts);
    FoldersInOrder(parts, |parts| - 1, i);
  }

  lemma {:induction false} AllKept(parts: seq<string>)
    requires CleanParts(parts)
    ensures NonEmpty(parts) == parts
  {
    if parts != [] {
      AllKept(parts[1..]);
    }
  }

  lemma PartsOfPath(parts: seq<string>)
    requires CleanParts(parts)
    ensures Parts(PathOf(parts)) == parts
  {
    var path := PathOf(parts);
    assert path == "" + ['/'] + Join(parts, '/');
    SplitFirst("", Join(parts, '/'), '/');
    if parts == [] {
      assert Split("", '/') == [""];
      assert NonEmpty([""]) == [];
      NonEmptyConcat([""], [""]);
    } else {
      SplitJoin(parts, '/');
      AllKept(parts);
      assert ([""] + parts)[1..] == parts;
    }
  }

  /** An answer is excluded exactly when its names begin with those of a tagged path. */
  lemma ExcludedIsBelow(answers: seq<string>, tagged: set<string>, path: seq<string>)
    requires CleanParts(path) && PathOf(path) in answers
    requires forall t :: t in tagged ==> exists tag :: CleanParts(tag) && t == PathOf(tag)
    ensures PathOf(path) in ExpectedExcluded(answers, tagged)
            <==> exists tag :: CleanParts(tag) && PathOf(tag) in tagged && tag <= path
  {
    hide Covered, PathOf;
    if t :| t in tagged && Covered(PathOf(path), t) {
      var tag :| CleanParts(tag) && t == PathOf(tag);
      CoveredIsBeginning(path, tag);
    }
    if tag :| CleanParts(tag) && PathOf(tag) in tagged && tag <= path {
      CoveredIsBeginning(path, tag);
    }
  }

  // ------------------------------------------------------------ what is read

  ghost predicate Repeats(s: seq<string>) {
    exists i, j :: 0 <= i < j < |s| && s[i] == s[j]
  }

  /** The folders of a list of answers, one answer after the other. */
  function AllFolders(answers: seq<string>): seq<string> {
    if answers == [] then [] else AllFolders(answers[..|answers| - 1]) + AncestorsOf(answers[|answers| - 1])
  }

  /** What stands in `more` and not before it, each at the place where it first comes. */
  function FirstSeen(before: seq<string>, more: seq<string>): seq<string> {
    if more == [] then []
    else
      var r, x := FirstSeen(before, more[..|more| - 1]), more[|more| - 1];
      if x in before || x in r then r else r + [x]
  }

  lemma {:induction false} FirstSeenMembers(before: seq<string>, more: seq<string>)
    ensures forall x :: x in FirstSeen(before, more) <==> x in more && x !in before
  {
    if more != [] {
      FirstSeenMembers(before, more[..|more| - 1]);
      assert more == more[..|more| - 1] + [more[|more| - 1]];
    }
  }

  lemma FirstSeenOne(before: seq<string>, more: seq<string>, x: string)
    ensures var r := FirstSeen(before, more);
            FirstSeen(before, more + [x]) == if x in before || x in r then r else r + [x]
  {
    assert (more + [x])[..|more|] == more;
  }

  lemma {:induction false} AllFoldersMembers(answers: seq<string>)
    ensures forall x :: x in AllFolders(answers) <==> exists p :: p in answers && x in AncestorsOf(p)
  {
    hide AncestorsOf;
    if answers != [] {
      AllFoldersMembers(answers[..|answers| - 1]);
      assert answers == answers[..|answers| - 1] + [answers[|answers| - 1]];
    }
  }

  /** The answers lead, as they are; behind them stands every folder above one of them that is no
      answer, once, where it first comes when the answers are gone through. */
  method BundleTargets(answers: seq<string>) returns (targets: seq<string>)
    ensures targets == answers + FirstSeen(answers, AllFolders(answers))
    ensures forall x :: x in targets <==> x in answers || exists p :: p in answers && x in AncestorsOf(p)
    ensures !Repeats(answers) ==> !Repeats(targets)
  {
    hide AncestorsOf, FirstSeen;
    var seen := set p | p in answers;
    targets := answers;
    assert answers[..0] == [] && answers + FirstSeen(answers, []) == answers by { NothingSeen(answers); }
    for i := 0 to |answers|
      invariant targets == answers + FirstSeen(answers, AllFolders(answers[..i]))
      invariant forall x :: x in seen <==> x in targets
      invariant !Repeats(answers) ==> !Repeats(targets)
    {
      var folders := AncestorsOf(answers[i]);
      ghost var front := AllFolders(answers[..i]);
      assert answers[..i + 1][..i] == answers[..i];
      assert front + folders[..0] == front;
      for j := 0 to |folders|
        invariant targets == answers + FirstSeen(answers, front + folders[..j])
        invariant forall x :: x in seen <==> x in targets
        invariant !Repeats(answers) ==> !Repeats(targets)
      {
        assert front + folders[..j + 1] == (front + folders[..j]) + [folders[j]];
        FirstSeenOne(answers, front + folders[..j], folders[j]);
        if folders[j] !in seen {
          seen := seen + {folders[j]};
          targets := targets + [folders[j]];
        }
      }
      assert folders[..|folders|] == folders;
    }
    assert answers[..|answers|] == answers;
    AllFoldersMembers(answers);
    FirstSeenMembers(answers, AllFolders(answers));
  }

  lemma NothingSeen(before: seq<string>)
    ensures FirstSeen(before, []) == []
  {
  }

  /** When the tags read on the answers and their folders are the tags that are set there, the
      chain of folders and the prefix rule exclude the same answers. */
  lemma ExclusionsAgree(answers: seq<string>, targets: seq<string>, tagged: set<string>,
                        tags: map<string, set<string>>, name: string)
    requires forall p :: p in answers ==> Normal(p)
    requires forall t :: t in tagged ==> Normal(t)
    requires forall x :: x in targets <==> x in answers || exists p :: p in answers && x in AncestorsOf(p)
    requires forall n :: n in targets ==> (name in TagsAt(tags, n) <==> n in tagged)
    ensures ExcludedByTags(answers, tags, name) == ExpectedExcluded(answers, tagged)
  {
    hide AncestorsOf, Covered, Normal;
    forall p | p in answers
      ensures (exists n :: n in [p] + AncestorsOf(p) && name in TagsAt(tags, n))
              <==> exists t :: t in tagged && Covered(p, t)
    {
      forall n | n in [p] + AncestorsOf(p) ensures n in targets { }
      if n :| n in [p] + AncestorsOf(p) && name in TagsAt(tags, n) {
        CoveredIsChain(p, n);
      }
      if t :| t in tagged && Covered(p, t) {
        CoveredIsChain(p, t);
      }
    }
  }
}
