/** From an entry of the unified search to an id: which kind a provider stands for, where in the
    entry the parts of its id are looked for, and what is handed out when they are not there. */
module Providers {
  import opened Basics
  import opened Text
  import opened Ids

  /** What one search entry offers: the stripped text of three attributes, empty when missing,
      the link rebuilt on this instance, and the path and fragment of that link. */
  datatype Hit =
    Hit(fileId: string, conversation: string, messageId: string, url: string, path: string, fragment: string)

  function PathSegments(path: string): seq<string> {
    NonEmpty(Split(path, '/'))
  }

  /** The first usable segment that stands right behind the marker, or nothing. */
  function Behind(segments: seq<string>, marker: string, token: bool): string {
    if |segments| < 2 then ""
    else if segments[0] == marker && Fits(segments[1], token) then segments[1]
    else Behind(segments[1..], marker, token)
  }

  predicate Fits(s: string, token: bool) {
    if token then IsToken(s) else IsDigits(s)
  }

  predicate StandsBehind(segments: seq<string>, marker: string, token: bool, i: int) {
    0 <= i && i + 1 < |segments| && segments[i] == marker && Fits(segments[i + 1], token)
  }

  /** The scan finds the segment behind the first marker that has a usable one behind it, and
      nothing only when there is no such marker. */
  lemma {:induction false} BehindIsFirst(segments: seq<string>, marker: string, token: bool)
    ensures var found := Behind(segments, marker, token);
            if found == "" then forall i :: !StandsBehind(segments, marker, token, i)
            else exists i :: StandsBehind(segments, marker, token, i) && segments[i + 1] == found
                          && forall j :: j < i ==> !StandsBehind(segments, marker, token, j)
  {
    var found := Behind(segments, marker, token);
    if StandsBehind(segments, marker, token, 0) {
      assert segments[0 + 1] == found;
    } else if |segments| >= 2 {
      BehindIsFirst(segments[1..], marker, token);
      assert forall i :: i != 0 ==>
        (StandsBehind(segments, marker, token, i) <==> StandsBehind(segments[1..], marker, token, i - 1));
      if found != "" {
        var i :| StandsBehind(segments[1..], marker, token, i) && segments[1..][i + 1] == found
              && forall j :: j < i ==> !StandsBehind(segments[1..], marker, token, j);
        assert StandsBehind(segments, marker, token, i + 1);
      }
    }
  }

  lemma BehindFits(segments: seq<string>, marker: string, token: bool)
    ensures Behind(segments, marker, token) == "" || Fits(Behind(segments, marker, token), token)
  {
    BehindIsFirst(segments, marker, token);
  }

  /** The scan of the segments, as a loop over their places. */
  method FindBehind(segments: seq<string>, marker: string, token: bool) returns (found: string)
    ensures found == Behind(segments, marker, token)
  {
    found := "";
    var i := 0;
    assert segments[0..] == segments;
    while i + 1 < |segments|
      invariant 0 <= i <= |segments|
      invariant Behind(segments, marker, token) == Behind(segments[i..], marker, token)
    {
      if segments[i] == marker && Fits(segments[i + 1], token) {
        found := segments[i + 1];
        return;
      }
      assert segments[i..][1..] == segments[i + 1..];
      i := i + 1;
    }
  }

  /** The attribute first, then the segment behind /f/. */
  function FileId(h: Hit): string {
    if IsDigits(h.fileId) then h.fileId else Behind(PathSegments(h.path), "f", false)
  }

  function After(s: string, prefix: string): Option<string> {
    if prefix <= s && IsDigits(s[|prefix|..]) then Some(s[|prefix|..]) else None
  }

  function MessageTarget(h: Hit): Option<(string, string)> {
    var token := if IsToken(h.conversation) then h.conversation else Behind(PathSegments(h.path), "call", true);
    var message := if IsDigits(h.messageId) then h.messageId else Get(After(h.fragment, "message_"), "");
    if token == "" || message == "" then None else Some((token, message))
  }

  /** The number in the fragment of a tables link, when the fragment names a table. */
  function TableNode(h: Hit): Option<string> {
    var f := if h.fragment != "" && h.fragment[0] == '/' then h.fragment[1..] else h.fragment;
    After(f, "table/")
  }

  function LastNumericSegment(path: string): string {
    var trimmed := DropSlashes(path);
    var segments := Split(trimmed, '/');
    var candidate := segments[|segments| - 1];
    if IsDigits(candidate) then candidate else ""
  }

  function DropSlashes(s: string): string {
    if s != "" && s[|s| - 1] == '/' then DropSlashes(s[..|s| - 1]) else s
  }

  datatype Extracted = Extracted(kind: string, id: Option<string>, canonical: bool)

  function KindOf(provider: string): string {
    if provider == "files" then "file"
    else if provider == "notes" then "note"
    else if provider == "search-deck-card-board" then "card"
    else if provider == "talk-message" || provider == "talk-message-current" then "message"
    else if provider == "tables-search-tables" then "table"
    else "url"
  }

  /** The kind, the id and whether a read tool can take it as it stands; nothing when the entry
      has neither a usable number nor a link. An id of None stands for a refusal of the codec. */
  function ExtractId(provider: string, h: Hit): Option<Extracted> {
    ExtractKind(KindOf(provider), h)
  }

  function ExtractKind(kind: string, h: Hit): Option<Extracted> {
    if kind == "file" && FileId(h) != "" then Some(Extracted("file", Encode("file", [FileId(h)]), true))
    else if kind == "note" && LastNumericSegment(h.path) != "" then
      Some(Extracted("note", Encode("note", [LastNumericSegment(h.path)]), true))
    else if kind == "card" && LastNumericSegment(h.path) != "" then
      Some(Extracted("card", Encode("card", [LastNumericSegment(h.path)]), false))
    else if kind == "message" && MessageTarget(h).Some? then
      Some(Extracted("message", Encode("message", [MessageTarget(h).value.0, MessageTarget(h).value.1]), true))
    else if kind == "table" && TableNode(h).Some? then
      Some(Extracted("table", Encode("table", [TableNode(h).value]), true))
    else LinkOf(h)
  }

  function LinkOf(h: Hit): Option<Extracted> {
    if h.url == "" then None else Some(Extracted("url", Encode("url", [h.url]), false))
  }

  // -------------------------------------------- where the parts are looked for

  /** The text stands behind the first segment with that name that has a usable one behind it. */
  ghost predicate FirstBehind(path: string, marker: string, token: bool, found: string) {
    var segments := PathSegments(path);
    exists i :: StandsBehind(segments, marker, token, i) && segments[i + 1] == found
             && forall j :: j < i ==> !StandsBehind(segments, marker, token, j)
  }

  ghost predicate NoneBehind(path: string, marker: string, token: bool) {
    forall i :: !StandsBehind(PathSegments(path), marker, token, i)
  }

  lemma BehindIs(path: string, marker: string, token: bool, found: string)
    ensures FirstBehind(path, marker, token, found) ==>
              found == Behind(PathSegments(path), marker, token) && found != ""
    ensures NoneBehind(path, marker, token) <==> Behind(PathSegments(path), marker, token) == ""
  {
    var segments := PathSegments(path);
    BehindIsFirst(segments, marker, token);
    if FirstBehind(path, marker, token, found) {
      var i :| StandsBehind(segments, marker, token, i) && segments[i + 1] == found
            && forall j :: j < i ==> !StandsBehind(segments, marker, token, j);
      var n := Behind(segments, marker, token);
      assert n != "";
      var k :| StandsBehind(segments, marker, token, k) && segments[k + 1] == n
            && forall j :: j < k ==> !StandsBehind(segments, marker, token, j);
      assert i == k;
    }
  }

  predicate AllSlashes(s: string) {
    forall i :: 0 <= i < |s| ==> s[i] == '/'
  }

  /** The number is the last segment of the path, but for slashes behind it. */
  ghost predicate EndsInNumber(path: string, n: string) {
    IsDigits(n) && exists head: string, tail: string ::
      path == head + n + tail && AllSlashes(tail) && (head == "" || head[|head| - 1] == '/')
  }

  lemma {:induction false} SlashesDropped(s: string)
    ensures var t := DropSlashes(s);
            t <= s && AllSlashes(s[|t|..]) && (t == "" || t[|t| - 1] != '/')
  {
    if s != "" && s[|s| - 1] == '/' {
      var front := s[..|s| - 1];
      SlashesDropped(front);
      var t := DropSlashes(front);
      assert s[|t|..] == front[|t|..] + ['/'];
    }
  }

  lemma {:induction false} DropsTail(s: string, tail: string)
    requires AllSlashes(tail) && (s == "" || s[|s| - 1] != '/')
    ensures DropSlashes(s + tail) == s
  {
    if tail == "" {
      assert s + tail == s;
    } else {
      assert (s + tail)[..|s + tail| - 1] == s + tail[..|tail| - 1];
      DropsTail(s, tail[..|tail| - 1]);
    }
  }

  function LastPart(s: string): string {
    Split(s, '/')[|Split(s, '/')| - 1]
  }

  /** What stands behind the last slash of a text, or all of it. */
  predicate IsLastPart(s: string, p: string) {
    && |p| <= |s| && p == s[|s| - |p|..] && '/' !in p
    && (|p| == |s| || s[|s| - |p| - 1] == '/')
  }

  lemma LastPartMore(c: char, s: string, p: string)
    requires IsLastPart(s, p) && (c == '/' || |p| < |s|)
    ensures IsLastPart([c] + s, p)
  {
    var t := [c] + s;
    assert t[|t| - |p|..] == s[|s| - |p|..];
  }

  lemma WholeIsLastPart(s: string)
    requires '/' !in s
    ensures IsLastPart(s, s)
  {
    assert s[0..] == s;
  }

  lemma {:induction false} LastPartIs(s: string)
    ensures IsLastPart(s, LastPart(s))
  {
    hide IsLastPart;
    if '/' !in s {
      SplitOne(s, '/');
      WholeIsLastPart(s);
    } else {
      var parts, rest := Split(s, '/'), Split(s[1..], '/');
      assert s == [s[0]] + s[1..];
      LastPartIs(s[1..]);
      if s[0] == '/' {
        assert parts == [""] + rest;
      } else {
        SlashSplits(s[1..]);
        assert parts[|parts| - 1] == rest[|rest| - 1];
        ManyPartsShorter(s[1..]);
        ShorterLastPart(s[1..], LastPart(s[1..]));
      }
      LastPartMore(s[0], s[1..], LastPart(s[1..]));
    }
  }

  lemma ShorterLastPart(s: string, p: string)
    requires IsLastPart(s, p) && p != s
    ensures |p| < |s|
  {
    assert s[0..] == s;
  }

  lemma {:induction false} SlashSplits(s: string)
    requires '/' in s
    ensures |Split(s, '/')| > 1
  {
    if s[0] != '/' {
      assert s == [s[0]] + s[1..];
      SlashSplits(s[1..]);
    }
  }

  /** Of several parts the last one is not the whole text. */
  lemma ManyPartsShorter(s: string)
    requires |Split(s, '/')| > 1
    ensures LastPart(s) != s
  {
    if '/' !in s {
      SplitOne(s, '/');
    } else {
      JoinSplit(s, '/');
    }
  }

  lemma NumberHasNoSlash(n: string)
    requires IsDigits(n)
    ensures '/' !in n && n != "" && n[|n| - 1] != '/'
  {
  }

  /** The path is its last part, with what stands before it and the slashes behind it. */
  lemma LastPartAtEnd(path: string, p: string)
    requires p == LastPart(DropSlashes(path)) && IsDigits(p)
    ensures EndsInNumber(path, p)
  {
    hide IsDigits, LastPart, DropSlashes, AllSlashes, IsLastPart;
    var t := DropSlashes(path);
    SlashesDropped(path);
    LastPartIs(t);
    var head := HeadOf(t, p);
    var tail := path[|t|..];
    assert path == t + tail == head + p + tail;
  }

  lemma HeadOf(s: string, p: string) returns (head: string)
    requires IsLastPart(s, p)
    ensures s == head + p && (head == "" || head[|head| - 1] == '/')
  {
    head := s[..|s| - |p|];
  }

  lemma AtEndIsLastPart(head: string, n: string, tail: string)
    requires IsDigits(n) && AllSlashes(tail) && (head == "" || head[|head| - 1] == '/')
    ensures LastPart(DropSlashes(head + n + tail)) == n
  {
    hide IsDigits, LastPart, DropSlashes;
    NumberHasNoSlash(n);
    DropsTail(head + n, tail);
    LastPartIs(head + n);
    SameLastPart(head, n, LastPart(head + n));
  }

  lemma NumberAtEnd(path: string, n: string)
    ensures EndsInNumber(path, n) <==> n != "" && n == LastNumericSegment(path)
  {
    hide LastPart, DropSlashes, LastNumericSegment, AllSlashes;
    LastIsLastPart(path);
    if n != "" && n == LastNumericSegment(path) {
      LastPartAtEnd(path, n);
    }
    if EndsInNumber(path, n) {
      var head: string, tail: string :| path == head + n + tail && AllSlashes(tail)
                                        && (head == "" || head[|head| - 1] == '/');
      AtEndIsLastPart(head, n, tail);
    }
  }

  lemma LastIsLastPart(path: string)
    ensures var p := LastPart(DropSlashes(path));
            LastNumericSegment(path) == if IsDigits(p) then p else ""
  {
  }

  lemma SameLastPart(head: string, n: string, p: string)
    requires '/' !in n && IsLastPart(head + n, p) && (head == "" || head[|head| - 1] == '/')
    ensures p == n
  {
    var s := head + n;
    assert forall i :: |head| <= i < |s| ==> s[i] == n[i - |head|] && s[i] in n;
    assert forall i :: |s| - |p| <= i < |s| ==> s[i] == p[i - (|s| - |p|)] && s[i] in p;
    assert head != "" ==> s[|head| - 1] == '/';
    assert |p| == |n|;
  }

  ghost predicate FileNumber(h: Hit, n: string) {
    if IsDigits(h.fileId) then n == h.fileId else FirstBehind(h.path, "f", false, n)
  }

  ghost predicate MessageToken(h: Hit, t: string) {
    if IsToken(h.conversation) then t == h.conversation else FirstBehind(h.path, "call", true, t)
  }

  predicate MessageNumber(h: Hit, n: string) {
    IsDigits(n) && if IsDigits(h.messageId) then n == h.messageId else h.fragment == "message_" + n
  }

  predicate TableNumber(h: Hit, n: string) {
    IsDigits(n) && (h.fragment == "table/" + n || h.fragment == "/table/" + n)
  }

  // ------------------------------------------------------ what is handed out

  /** An id of this kind that parses back to exactly these parts. */
  predicate Gives(x: Option<Extracted>, kind: string, parts: seq<string>, canonical: bool) {
    && x.Some? && x.value.kind == kind && x.value.canonical == canonical
    && x.value.id.Some? && Parse(x.value.id.value) == Id(kind, parts)
  }

  /** The honest rest: nothing without a link, the codec's refusal of a blank one, and otherwise
      the stripped link, which no read tool can take. */
  predicate GivesLink(x: Option<Extracted>, h: Hit) {
    if h.url == "" then x.None?
    else if Blank(h.url) then x == Some(Extracted("url", None, false))
    else Gives(x, "url", [Strip(h.url)], false)
  }

  lemma LinkIsGiven(h: Hit)
    ensures GivesLink(LinkOf(h), h)
  {
    hide Parse, IsSpace, Strip;
    if !Blank(h.url) {
      UrlParseBack(h.url);
    }
  }

  lemma FilesGive(h: Hit, n: string)
    ensures FileNumber(h, n) ==> Gives(ExtractId("files", h), "file", [n], true)
    ensures !IsDigits(h.fileId) && NoneBehind(h.path, "f", false) ==> GivesLink(ExtractId("files", h), h)
  {
    hide Parse, Encode, GivesLink, FirstBehind, NoneBehind, Behind, PathSegments, IsDigits;
    BehindIs(h.path, "f", false, n);
    BehindFits(PathSegments(h.path), "f", false);
    LinkIsGiven(h);
    if FileNumber(h, n) {
      assert n != "" by { if IsDigits(h.fileId) { NotEmpty(n); } }
      NumberParses("file", n);
    }
  }

  lemma NotEmpty(n: string)
    requires IsDigits(n)
    ensures n != ""
  {
  }

  lemma NotesGive(h: Hit, n: string)
    ensures EndsInNumber(h.path, n) ==> Gives(ExtractId("notes", h), "note", [n], true)
    ensures (forall m :: !EndsInNumber(h.path, m)) ==> GivesLink(ExtractId("notes", h), h)
  {
    hide Parse, Encode, GivesLink, EndsInNumber, LastNumericSegment, IsDigits;
    LastGives(h, n);
    LinkIsGiven(h);
    if EndsInNumber(h.path, n) {
      NumberParses("note", n);
    }
  }

  lemma CardsGive(h: Hit, n: string)
    ensures EndsInNumber(h.path, n) ==> Gives(ExtractId("search-deck-card-board", h), "card", [n], false)
    ensures (forall m :: !EndsInNumber(h.path, m)) ==> GivesLink(ExtractId("search-deck-card-board", h), h)
  {
    hide Parse, Encode, GivesLink, EndsInNumber, LastNumericSegment, IsDigits;
    LastGives(h, n);
    LinkIsGiven(h);
    if EndsInNumber(h.path, n) {
      NumberParses("card", n);
    }
  }

  lemma LastGives(h: Hit, n: string)
    ensures EndsInNumber(h.path, n) ==> n == LastNumericSegment(h.path) && n != "" && IsDigits(n)
    ensures (forall m :: !EndsInNumber(h.path, m)) ==> LastNumericSegment(h.path) == ""
  {
    hide LastNumericSegment;
    NumberAtEnd(h.path, n);
    NumberAtEnd(h.path, LastNumericSegment(h.path));
  }

  lemma MessagesGive(provider: string, h: Hit, t: string, n: string)
    requires provider == "talk-message" || provider == "talk-message-current"
    ensures MessageToken(h, t) && MessageNumber(h, n) ==> Gives(ExtractId(provider, h), "message", [t, n], true)
    ensures (!IsToken(h.conversation) && NoneBehind(h.path, "call", true)) || (forall m :: !MessageNumber(h, m)) ==>
              GivesLink(ExtractId(provider, h), h)
  {
    hide Parse, Encode, GivesLink, FirstBehind, NoneBehind, Behind, PathSegments, IsDigits, IsToken;
    BehindIs(h.path, "call", true, t);
    BehindFits(PathSegments(h.path), "call", true);
    LinkIsGiven(h);
    FragmentNumber(h.fragment, "message_", n);
    if MessageToken(h, t) && MessageNumber(h, n) {
      NotEmpty(n);
      if IsToken(h.conversation) { TokenNotEmpty(t); }
      MessageParses(t, n);
    }
    if forall m :: !MessageNumber(h, m) {
      assert !MessageNumber(h, h.messageId);
      FragmentNumber(h.fragment, "message_", Get(After(h.fragment, "message_"), ""));
      assert !MessageNumber(h, Get(After(h.fragment, "message_"), ""));
    }
  }

  lemma TokenNotEmpty(t: string)
    requires IsToken(t)
    ensures t != ""
  {
  }

  lemma FragmentNumber(fragment: string, prefix: string, n: string)
    ensures After(fragment, prefix) == Some(n) <==> IsDigits(n) && fragment == prefix + n
  {
    if prefix <= fragment {
      assert fragment == prefix + fragment[|prefix|..];
    }
  }

  lemma TablesGive(h: Hit, n: string)
    ensures TableNumber(h, n) ==> Gives(ExtractId("tables-search-tables", h), "table", [n], true)
    ensures (forall m :: !TableNumber(h, m)) ==> GivesLink(ExtractId("tables-search-tables", h), h)
  {
    hide Parse, Encode, GivesLink, IsDigits, TableNode;
    LinkIsGiven(h);
    TableNodeIs(h, n);
    if TableNumber(h, n) {
      NumberParses("table", n);
    }
    if TableNode(h).Some? {
      TableNodeIs(h, TableNode(h).value);
    }
  }

  lemma TableNodeIs(h: Hit, n: string)
    ensures TableNode(h) == Some(n) <==> TableNumber(h, n)
  {
    hide IsDigits;
    var f := if h.fragment != "" && h.fragment[0] == '/' then h.fragment[1..] else h.fragment;
    FragmentNumber(f, "table/", n);
    assert "table/"[0] == 't' && ("table/" + n)[0] == 't' && ("/table/" + n)[0] == '/';
    assert ("/table/" + n)[1..] == "table/" + n;
    if h.fragment != "" && h.fragment[0] == '/' {
      assert h.fragment == "/" + f && "/" + ("table/" + n) == "/table/" + n;
    }
  }

  /** A view of the tables app is never handed out as a table. */
  lemma ViewsAreLinks(h: Hit, n: string)
    requires h.fragment == "view/" + n || h.fragment == "/view/" + n
    ensures GivesLink(ExtractId("tables-search-tables", h), h)
  {
    hide GivesLink, ExtractId;
    assert ("view/" + n)[0] == 'v' && ("/view/" + n)[0] == '/' && ("/view/" + n)[1] == 'v';
    forall m ensures !TableNumber(h, m) {
      assert ("table/" + m)[0] == 't' && ("/table/" + m)[0] == '/' && ("/table/" + m)[1] == 't';
    }
    TablesGive(h, n);
  }

  /** Every other provider gives the link. */
  lemma OthersGive(provider: string, h: Hit)
    requires provider !in {"files", "notes", "search-deck-card-board", "talk-message", "talk-message-current",
                           "tables-search-tables"}
    ensures GivesLink(ExtractId(provider, h), h)
  {
    hide GivesLink;
    LinkIsGiven(h);
  }
}
