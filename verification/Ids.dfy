/** Prefixed resource ids: one codec, both directions, and the producer that feeds it. */
module Ids {
  import opened Basics
  import opened Text

  const SEPARATOR := ':'

  datatype Why = NotAnId | BadValue | UnknownKind | EmptySegment

  datatype Parsed = Id(kind: string, parts: seq<string>) | Refused(why: Why)

  /** The regular expression [0-9]+, matched in full. */
  predicate IsDigits(s: string) {
    s != "" && forall i :: 0 <= i < |s| ==> '0' <= s[i] <= '9'
  }

  /** The regular expression [a-z0-9]{4,30}, matched in full. */
  predicate IsToken(s: string) {
    4 <= |s| <= 30 && forall i :: 0 <= i < |s| ==> 'a' <= s[i] <= 'z' || '0' <= s[i] <= '9'
  }

  const DIGITS: set<char> := {'0', '1', '2', '3', '4', '5', '6', '7', '8', '9'}
  const LETTERS: set<char> := {
    'a', 'b', 'c', 'd', 'e', 'f', 'g', 'h', 'i', 'j', 'k', 'l', 'm',
    'n', 'o', 'p', 'q', 'r', 's', 't', 'u', 'v', 'w', 'x', 'y', 'z'
  }

  /** Which texts the two expressions match, character by character. */
  lemma DigitTexts(s: string)
    ensures IsDigits(s) <==> s != "" && forall i :: 0 <= i < |s| ==> s[i] in DIGITS
  {
    forall c: char ensures c in DIGITS <==> '0' <= c <= '9' { }
  }

  lemma TokenTexts(s: string)
    ensures IsToken(s) <==> 4 <= |s| <= 30 && forall i :: 0 <= i < |s| ==> s[i] in LETTERS || s[i] in DIGITS
  {
    forall c: char ensures c in DIGITS <==> '0' <= c <= '9' { }
    forall c: char ensures c in LETTERS <==> 'a' <= c <= 'z' { }
  }

  /** The place of the first separator, or the length when there is none. */
  function FirstSeparator(s: string): (k: nat)
    ensures k <= |s| && SEPARATOR !in s[..k]
    ensures k < |s| ==> s[k] == SEPARATOR
  {
    if s == "" || s[0] == SEPARATOR then 0
    else
      var k := FirstSeparator(s[1..]);
      assert s[..k + 1] == [s[0]] + s[1..][..k];
      k + 1
  }

  // -------------------------------------------------------------- encoding

  predicate Usable(part: string) {
    !Blank(part) && SEPARATOR !in part
  }

  predicate AllUsable(parts: seq<string>) {
    forall i :: 0 <= i < |parts| ==> Usable(parts[i])
  }

  /** Every encoder of the module: how many segments a kind takes, and what it refuses. */
  function Encode(kind: string, parts: seq<string>): Option<string> {
    if kind == "url" then
      if |parts| == 1 && !Blank(parts[0]) then Some("url" + [SEPARATOR] + Strip(parts[0])) else None
    else if Shape(kind, |parts|) && AllUsable(parts) then Some(kind + [SEPARATOR] + Join(parts, SEPARATOR))
    else None
  }

  predicate Shape(kind: string, n: nat) {
    if kind == "card" then n == 1 || n == 3
    else if kind == "event" || kind == "message" then n == 2
    else (kind == "file" || kind == "note" || kind == "mail" || kind == "table") && n == 1
  }

  /** What each encoder builds, out of how many segments. */
  lemma EncodersOfOne(a: string)
    ensures Encode("file", [a]) == if Usable(a) then Some("file:" + a) else None
    ensures Encode("note", [a]) == if Usable(a) then Some("note:" + a) else None
    ensures Encode("mail", [a]) == if Usable(a) then Some("mail:" + a) else None
    ensures Encode("table", [a]) == if Usable(a) then Some("table:" + a) else None
    ensures Encode("card", [a]) == if Usable(a) then Some("card:" + a) else None
    ensures Encode("url", [a]) == if Blank(a) then None else Some("url:" + Strip(a))
  {
    hide Usable, Strip, Blank;
    KindsDiffer();
    assert AllUsable([a]) <==> Usable([a][0]);
    assert Join([a], SEPARATOR) == a;
  }

  lemma EncodersOfTwo(a: string, b: string)
    ensures Encode("event", [a, b]) == if Usable(a) && Usable(b) then Some("event:" + (a + ":" + b)) else None
    ensures Encode("message", [a, b]) == if Usable(a) && Usable(b) then Some("message:" + (a + ":" + b)) else None
  {
    hide Usable, Strip, Blank;
    KindsDiffer();
    JoinTwo(a, b);
    assert AllUsable([a, b]) <==> Usable([a, b][0]) && Usable([a, b][1]);
  }

  lemma EncoderOfThree(a: string, b: string, c: string)
    ensures Encode("card", [a, b, c])
            == if Usable(a) && Usable(b) && Usable(c) then Some("card:" + (a + ":" + (b + ":" + c))) else None
  {
    hide Usable, Strip, Blank;
    KindsDiffer();
    JoinTwo(b, c);
    assert [a, b, c][1..] == [b, c];
    assert Join([a, b, c], SEPARATOR) == a + ":" + (b + ":" + c);
    assert AllUsable([a, b, c]) <==> Usable([a, b, c][0]) && Usable([a, b, c][1]) && Usable([a, b, c][2]);
  }

  lemma JoinTwo(a: string, b: string)
    ensures Join([a, b], SEPARATOR) == a + ":" + b
  {
  }

  lemma KindsDiffer()
    ensures "file" != "url" && "note" != "url" && "mail" != "url" && "table" != "url" && "card" != "url"
    ensures "event" != "url" && "message" != "url" && "file" != "card" && "note" != "card" && "mail" != "card"
    ensures "table" != "card" && "event" != "card" && "message" != "card"
    ensures "file" + ":" == "file:" && "note" + ":" == "note:" && "mail" + ":" == "mail:" && "table" + ":" == "table:"
    ensures "card" + ":" == "card:" && "event" + ":" == "event:" && "message" + ":" == "message:"
    ensures "url" + ":" == "url:"
  {
    assert "file"[0] == 'f' && "note"[0] == 'n' && "mail"[0] == 'm' && "table"[0] == 't' && "card"[0] == 'c';
    assert "event"[0] == 'e' && "message"[0] == 'm' && "url"[0] == 'u';
  }

  /** No kind but these has an encoder, and none takes another number of segments. */
  lemma NoOtherEncoder(kind: string, parts: seq<string>)
    requires Encode(kind, parts).Some?
    ensures || (|parts| == 1 && kind in ["file", "note", "mail", "table", "card", "url"])
            || (|parts| == 2 && kind in ["event", "message"])
            || (|parts| == 3 && kind == "card")
  {
    hide Usable, Strip, Blank, Join;
    var one, two := ["file", "note", "mail", "table", "card", "url"], ["event", "message"];
    assert one[0] == "file" && one[1] == "note" && one[2] == "mail" && one[3] == "table" && one[4] == "card";
    assert one[5] == "url" && two[0] == "event" && two[1] == "message";
  }

  // --------------------------------------------------------------- parsing

  function Parse(raw: string): Parsed {
    var value := Strip(raw);
    var k := FirstSeparator(value);
    if k == |value| || k == 0 || k + 1 == |value| then Refused(NotAnId)
    else ParseRest(value[..k], value[k + 1..])
  }

  function ParseRest(kind: string, rest: string): Parsed {
    if kind == "url" then if Blank(rest) || !Trimmed(rest) then Refused(NotAnId) else Id("url", [rest])
    else if kind == "file" || kind == "note" then
      if SEPARATOR in rest then Refused(NotAnId) else Segments(kind, [rest])
    else if kind == "mail" || kind == "table" then
      if !IsDigits(rest) then Refused(BadValue) else Segments(kind, [rest])
    else if kind == "message" then
      var j := FirstSeparator(rest);
      if j == |rest| || !IsToken(rest[..j]) || !IsDigits(rest[j + 1..]) then Refused(BadValue)
      else Segments(kind, [rest[..j], rest[j + 1..]])
    else if kind == "card" || kind == "event" then
      var parts := Split(rest, SEPARATOR);
      if !Shape(kind, |parts|) then Refused(BadValue) else Segments(kind, parts)
    else Refused(UnknownKind)
  }

  function Segments(kind: string, parts: seq<string>): Parsed {
    if exists i :: 0 <= i < |parts| && Blank(parts[i]) then Refused(EmptySegment) else Id(kind, parts)
  }

  // ------------------------------------------------ reading, then writing

  lemma DigitsUsable(s: string)
    requires IsDigits(s)
    ensures Usable(s) && Trimmed(s)
  {
    assert !IsSpace(s[0]);
  }

  lemma TokenUsable(s: string)
    requires IsToken(s)
    ensures Usable(s) && Trimmed(s)
  {
    assert !IsSpace(s[0]);
  }

  /** What a parse accepts is made of usable segments in the shape of its kind. */
  lemma AcceptedShape(kind: string, rest: string)
    requires ParseRest(kind, rest).Id?
    ensures var p := ParseRest(kind, rest);
            && p.kind == kind && Join(p.parts, SEPARATOR) == rest
            && (kind == "url" ==> |p.parts| == 1 && !Blank(rest) && Trimmed(rest))
            && (kind != "url" ==> Shape(kind, |p.parts|) && AllUsable(p.parts))
  {
    hide Blank, Trimmed, IsSpace;
    if kind == "card" || kind == "event" {
      JoinSplit(rest, SEPARATOR);
    } else if kind == "message" {
      var j := FirstSeparator(rest);
      TokenUsable(rest[..j]);
      DigitsUsable(rest[j + 1..]);
      assert [rest[..j], rest[j + 1..]][1..] == [rest[j + 1..]];
      assert rest == rest[..j] + [SEPARATOR] + rest[j + 1..];
    } else if kind == "mail" || kind == "table" {
      DigitsUsable(rest);
    }
  }

  /** Every accepted id is one the encoders build, and they build exactly its stripped text:
      no reading widens the set of ids beyond what the writing side produces. */
  lemma AcceptedIdsReencode(raw: string)
    requires Parse(raw).Id?
    ensures Encode(Parse(raw).kind, Parse(raw).parts) == Some(Strip(raw))
  {
    hide Blank, Trimmed, IsSpace, ParseRest, Strip;
    var value := Strip(raw);
    var k := FirstSeparator(value);
    AcceptedShape(value[..k], value[k + 1..]);
    assert value == value[..k] + [SEPARATOR] + value[k + 1..];
    if value[..k] == "url" {
      StripTrimmed(value[k + 1..]);
    }
  }

  // ------------------------------------------------ writing, then reading

  lemma {:induction false} SeparatorAfter(kind: string, rest: string)
    requires SEPARATOR !in kind
    ensures FirstSeparator(kind + [SEPARATOR] + rest) == |kind|
  {
    var s := kind + [SEPARATOR] + rest;
    if kind != "" {
      assert s[1..] == kind[1..] + [SEPARATOR] + rest;
      SeparatorAfter(kind[1..], rest);
    }
  }

  predicate KnownKind(kind: string) {
    || kind == "url" || kind == "card" || kind == "event" || kind == "message"
    || kind == "file" || kind == "note" || kind == "mail" || kind == "table"
  }

  lemma KindIsPlain(kind: string)
    requires KnownKind(kind)
    ensures kind != "" && SEPARATOR !in kind && !IsSpace(kind[0])
  {
  }

  lemma LeftStripKeeps(s: string)
    requires s != "" && !IsSpace(s[0])
    ensures Strip(s) == RightStrip(s)
  {
  }

  /** Parsing an id strips the end of its last segment and nothing else. */
  lemma ParseEncoded(kind: string, rest: string)
    requires KnownKind(kind) && !Blank(rest)
    ensures Parse(kind + [SEPARATOR] + rest) == ParseRest(kind, RightStrip(rest))
  {
    hide Blank, IsSpace, ParseRest, Strip, RightStrip;
    var text := kind + [SEPARATOR] + rest;
    KindIsPlain(kind);
    LeftStripKeeps(text);
    RightStripTail(kind + [SEPARATOR], rest);
    RightStripBlank(rest);
    var value := kind + [SEPARATOR] + RightStrip(rest);
    SeparatorAfter(kind, RightStrip(rest));
    assert value[..|kind|] == kind && value[|kind| + 1..] == RightStrip(rest);
  }

  /** The segments, with the end of the last one stripped. */
  function LastStripped(parts: seq<string>): seq<string>
    requires parts != []
  {
    parts[..|parts| - 1] + [RightStrip(parts[|parts| - 1])]
  }

  lemma {:induction false} RightStripJoin(parts: seq<string>)
    requires parts != [] && !Blank(parts[|parts| - 1])
    ensures RightStrip(Join(parts, SEPARATOR)) == Join(LastStripped(parts), SEPARATOR)
    ensures !Blank(Join(parts, SEPARATOR))
  {
    hide Blank, RightStrip, IsSpace;
    if |parts| > 1 {
      RightStripJoin(parts[1..]);
      var rest := Join(parts[1..], SEPARATOR);
      RightStripTail(parts[0] + [SEPARATOR], rest);
      BlankTail(parts[0] + [SEPARATOR], rest);
      assert LastStripped(parts)[1..] == LastStripped(parts[1..]);
    }
  }

  lemma BlankTail(a: string, b: string)
    requires !Blank(b)
    ensures !Blank(a + b)
  {
    var i :| 0 <= i < |b| && !IsSpace(b[i]);
    assert (a + b)[|a| + i] == b[i];
  }

  /** The segments an id of this kind is read back from unchanged. */
  predicate Readable(kind: string, parts: seq<string>)
    requires parts != []
  {
    var last := parts[|parts| - 1];
    if kind == "url" then Trimmed(last)
    else if kind == "mail" || kind == "table" then IsDigits(last)
    else if kind == "message" then IsToken(parts[0]) && IsDigits(last)
    else RightStrip(last) == last
  }

  lemma StripUsable(part: string)
    requires Usable(part)
    ensures Usable(RightStrip(part))
  {
    RightStripBlank(part);
    var r := RightStrip(part);
    assert r == part[..|r|];
    assert !IsSpace(r[|r| - 1]);
  }

  /** An id that was built parses back to the very segments it was built from exactly when its
      last segment ends without white space and, where the kind asks for digits or a token,
      carries them. For the other ids the parse answers with something else or refuses. */
  lemma BuiltIdsParseBack(kind: string, parts: seq<string>)
    requires parts != [] && Encode(kind, parts).Some?
    ensures Parse(Encode(kind, parts).value) == Id(kind, parts) <==> Readable(kind, parts)
  {
    hide Blank, IsSpace, Strip, RightStrip, Parse, ParseRest, IsDigits, IsToken;
    if kind == "url" {
      UrlParseBack(parts[0]);
    } else {
      var rest := Join(parts, SEPARATOR);
      assert Usable(parts[|parts| - 1]);
      RightStripJoin(parts);
      ParseEncoded(kind, rest);
      RestParseBack(kind, parts);
    }
  }

  /** Accepted by the encoders and not read back: a mail id that is no number, and a note id
      with a space at its end. */
  lemma BuiltIdsCanFail()
    ensures Encode("mail", ["abc"]).Some? && Parse(Encode("mail", ["abc"]).value) != Id("mail", ["abc"])
    ensures Encode("note", ["7 "]).Some? && Parse(Encode("note", ["7 "]).value) != Id("note", ["7 "])
  {
    hide Parse, RightStrip, Join, Trimmed, IsToken;
    var word, number := "abc", "7 ";
    assert word[0] == 'a' && number[0] == '7' && number[1] == ' ';
    assert IsSpace(' ') && !IsSpace('7') && !IsSpace('a');
    assert Usable(word) && Usable(number);
    BuiltIdsParseBack("mail", [word]);
    BuiltIdsParseBack("note", [number]);
  }

  lemma UrlParseBack(url: string)
    requires !Blank(url)
    ensures Parse("url" + [SEPARATOR] + Strip(url)) == Id("url", [Strip(url)])
    ensures Strip(url) == url <==> Trimmed(url)
  {
    hide Blank, IsSpace, Strip, RightStrip, Parse;
    StripBlank(url);
    StripTrimmedAgain(url);
    ParseEncoded("url", Strip(url));
  }

  lemma StripTrimmedAgain(s: string)
    requires !Blank(s)
    ensures Trimmed(Strip(s)) && !Blank(Strip(s)) && RightStrip(Strip(s)) == Strip(s)
    ensures Trimmed(s) ==> Strip(s) == s
  {
    hide Strip, RightStrip, LeftStrip, Blank, IsSpace;
    StripBlank(s);
    StripBlank(Strip(s));
  }

  lemma RestParseBack(kind: string, parts: seq<string>)
    requires kind != "url" && Shape(kind, |parts|) && AllUsable(parts)
    ensures ParseRest(kind, Join(LastStripped(parts), SEPARATOR)) == Id(kind, parts) <==> Readable(kind, parts)
  {
    hide IsSpace, RightStrip, Blank, IsDigits, IsToken, Split, FirstSeparator;
    var last := parts[|parts| - 1];
    StripUsable(last);
    if kind == "message" {
      MessageParseBack(parts[0], last);
      assert parts == [parts[0], last] && parts[..1] == [parts[0]];
    } else if kind == "card" || kind == "event" {
      SplitJoin(LastStripped(parts), SEPARATOR);
    } else {
      assert parts == [last];
      SingleParseBack(kind, last);
    }
  }

  lemma SingleParseBack(kind: string, part: string)
    requires kind != "url" && kind != "card" && Shape(kind, 1) && Usable(part)
    ensures ParseRest(kind, RightStrip(part)) == Id(kind, [part]) <==> Readable(kind, [part])
  {
    hide IsSpace, RightStrip, Blank, IsDigits, IsToken;
    StripUsable(part);
    if IsDigits(part) {
      DigitsUsable(part);
      TrimmedRight(part);
    }
  }

  lemma MessageParseBack(token: string, last: string)
    requires Usable(token) && Usable(last)
    ensures ParseRest("message", Join([token, RightStrip(last)], SEPARATOR)) == Id("message", [token, last])
            <==> IsToken(token) && IsDigits(last)
  {
    hide IsSpace, RightStrip, Blank, IsDigits, IsToken;
    StripUsable(last);
    var stripped := RightStrip(last);
    assert [token, stripped][1..] == [stripped];
    var rest := Join([token, stripped], SEPARATOR);
    assert Join([stripped], SEPARATOR) == stripped;
    assert rest == token + [SEPARATOR] + stripped;
    SeparatorAfter(token, stripped);
    assert rest[..|token|] == token && rest[|token| + 1..] == stripped;
    if IsDigits(last) {
      DigitsUsable(last);
      TrimmedRight(last);
    }
  }

  lemma TrimmedRight(s: string)
    requires Trimmed(s)
    ensures RightStrip(s) == s
  {
  }

  /** Numbers and tokens make ids the codec neither refuses nor changes. */
  lemma NumberParses(kind: string, n: string)
    requires kind != "url" && Shape(kind, 1) && IsDigits(n)
    ensures Encode(kind, [n]).Some? && Parse(Encode(kind, [n]).value) == Id(kind, [n])
  {
    DigitsUsable(n);
    TrimmedRight(n);
    BuiltIdsParseBack(kind, [n]);
  }

  lemma MessageParses(token: string, n: string)
    requires IsToken(token) && IsDigits(n)
    ensures Encode("message", [token, n]).Some?
    ensures Parse(Encode("message", [token, n]).value) == Id("message", [token, n])
  {
    TokenUsable(token);
    DigitsUsable(n);
    BuiltIdsParseBack("message", [token, n]);
  }
}
