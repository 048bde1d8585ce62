/** Python's string operations: white space and `strip`, `split` and `join`. */
module Text {

  predicate IsSpace(c: char) {
    var n := c as int;
    || 9 <= n <= 13 || 28 <= n <= 32 || n == 0x85 || n == 0xA0 || n == 0x1680
    || 0x2000 <= n <= 0x200A || n == 0x2028 || n == 0x2029 || n == 0x202F || n == 0x205F || n == 0x3000
  }

  /** The white space of Python's texts, by code point. */
  const WHITE_SPACE: set<int> := {
    9, 10, 11, 12, 13, 28, 29, 30, 31, 32, 0x85, 0xA0, 0x1680,
    0x2000, 0x2001, 0x2002, 0x2003, 0x2004, 0x2005, 0x2006, 0x2007, 0x2008, 0x2009, 0x200A,
    0x2028, 0x2029, 0x202F, 0x205F, 0x3000
  }

  lemma SpacesAre(c: char)
    ensures IsSpace(c) <==> c as int in WHITE_SPACE
  {
  }

  function LeftStrip(s: string): (t: string)
    ensures t == "" || !IsSpace(t[0])
    ensures |t| <= |s| && t == s[|s| - |t|..]
    ensures s != "" && !IsSpace(s[0]) ==> t == s
  {
    if s != "" && IsSpace(s[0]) then LeftStrip(s[1..]) else s
  }

  function RightStrip(s: string): (t: string)
    ensures t == "" || !IsSpace(t[|t| - 1])
    ensures t <= s
    ensures s != "" && !IsSpace(s[|s| - 1]) ==> t == s
  {
    if s != "" && IsSpace(s[|s| - 1]) then RightStrip(s[..|s| - 1]) else s
  }

  /** No white space at either end. */
  predicate Trimmed(s: string) {
    s == "" || (!IsSpace(s[0]) && !IsSpace(s[|s| - 1]))
  }

  function Strip(s: string): (t: string)
    ensures Trimmed(t)
    ensures Trimmed(s) ==> t == s
  {
    var l := LeftStrip(s);
    var t := RightStrip(l);
    assert t != "" ==> t[0] == l[0];
    t
  }

  lemma StripTrimmed(s: string)
    requires Trimmed(s)
    ensures Strip(s) == s
  {
  }

  /** Nothing but white space, or nothing at all. */
  predicate Blank(s: string) {
    forall i :: 0 <= i < |s| ==> IsSpace(s[i])
  }

  lemma BlankBoth(a: string, b: string)
    requires Blank(a) && Blank(b)
    ensures Blank(a + b)
  {
    hide IsSpace;
  }

  lemma {:induction false} LeftStripTakes(s: string) returns (a: string)
    ensures Blank(a) && s == a + LeftStrip(s)
  {
    hide IsSpace, Blank;
    if s != "" && IsSpace(s[0]) {
      var rest := LeftStripTakes(s[1..]);
      BlankOne(s[0]);
      BlankBoth([s[0]], rest);
      a := [s[0]] + rest;
      assert s == [s[0]] + s[1..];
      Associative([s[0]], rest, LeftStrip(s));
    } else {
      BlankNone();
      a := "";
    }
  }

  lemma BlankOne(c: char)
    requires IsSpace(c)
    ensures Blank([c])
  {
  }

  lemma BlankNone()
    ensures Blank("")
  {
  }

  lemma {:induction false} RightStripTakes(s: string) returns (b: string)
    ensures Blank(b) && s == RightStrip(s) + b
  {
    hide IsSpace, Blank;
    if s != "" && IsSpace(s[|s| - 1]) {
      var front, c := s[..|s| - 1], s[|s| - 1];
      var rest := RightStripTakes(front);
      BlankOne(c);
      BlankBoth(rest, [c]);
      b := rest + [c];
      assert s == front + [c];
      Associative(RightStrip(front), rest, [c]);
    } else {
      BlankNone();
      b := "";
    }
  }

  /** Stripping takes white space off both ends and nothing else. */
  lemma StripTakes(s: string) returns (a: string, b: string)
    ensures Blank(a) && Blank(b) && s == a + Strip(s) + b
  {
    hide LeftStrip, RightStrip, Blank, IsSpace;
    var l := LeftStrip(s);
    var t := RightStrip(l);
    a := LeftStripTakes(s);
    b := RightStripTakes(l);
    Associative(a, t, b);
    assert Strip(s) == t;
  }

  lemma {:induction false} LeftStripBlankThen(a: string, t: string)
    requires Blank(a) && (t == "" || !IsSpace(t[0]))
    ensures LeftStrip(a + t) == t
  {
    hide IsSpace;
    if a == "" {
      assert a + t == t;
    } else {
      assert (a + t)[1..] == a[1..] + t && (a + t)[0] == a[0];
      LeftStripBlankThen(a[1..], t);
    }
  }

  lemma {:induction false} RightStripThenBlank(t: string, b: string)
    requires Blank(b) && (t == "" || !IsSpace(t[|t| - 1]))
    ensures RightStrip(t + b) == t
  {
    hide IsSpace;
    if b == "" {
      assert t + b == t;
    } else {
      assert (t + b)[..|t + b| - 1] == t + b[..|b| - 1] && (t + b)[|t + b| - 1] == b[|b| - 1];
      RightStripThenBlank(t, b[..|b| - 1]);
    }
  }

  lemma StripAround(a: string, t: string, b: string)
    requires Blank(a) && Blank(b) && Trimmed(t)
    ensures Strip(a + t + b) == t
  {
    hide LeftStrip, RightStrip, IsSpace, Blank;
    if t == "" {
      BlankBoth(a, b);
      assert a + t + b == (a + b) + "";
      LeftStripBlankThen(a + b, "");
      assert RightStrip("") == "" by { RightStripEmpty(); }
    } else {
      assert (t + b)[0] == t[0];
      LeftStripBlankThen(a, t + b);
      assert a + t + b == a + (t + b);
      RightStripThenBlank(t, b);
    }
  }

  lemma RightStripEmpty()
    ensures RightStrip("") == ""
  {
  }

  lemma {:induction false} RightStripBlank(s: string)
    ensures RightStrip(s) == "" <==> Blank(s)
  {
    if s != "" && IsSpace(s[|s| - 1]) {
      RightStripBlank(s[..|s| - 1]);
    }
  }

  lemma {:induction false} LeftStripBlank(s: string)
    ensures LeftStrip(s) == "" <==> Blank(s)
  {
    if s != "" && IsSpace(s[0]) {
      LeftStripBlank(s[1..]);
      assert s == [s[0]] + s[1..];
    }
  }

  lemma StripBlank(s: string)
    ensures Strip(s) == "" <==> Blank(s)
  {
    LeftStripBlank(s);
    RightStripBlank(LeftStrip(s));
  }

  lemma StripIgnores(a: string, s: string, b: string)
    requires Blank(a) && Blank(b)
    ensures Strip(a + s + b) == Strip(s)
  {
    hide Strip, IsSpace, Trimmed;
    var c, d := StripTakes(s);
    assert a + s + b == (a + c) + Strip(s) + (d + b);
    StripAround(a + c, Strip(s), d + b);
  }

  lemma {:induction false} RightStripTail(a: string, b: string)
    requires !Blank(b)
    ensures RightStrip(a + b) == a + RightStrip(b)
  {
    var s := a + b;
    assert b != "" && s[|s| - 1] == b[|b| - 1];
    if IsSpace(b[|b| - 1]) {
      assert s[..|s| - 1] == a + b[..|b| - 1];
      RightStripTail(a, b[..|b| - 1]);
    }
  }

  // --------------------------------------------------------- split and join

  lemma Associative(a: string, b: string, c: string)
    ensures (a + b) + c == a + (b + c)
  {
  }

  /** s.split(sep) */
  function Split(s: string, sep: char): (parts: seq<string>)
    ensures |parts| >= 1
  {
    if s == "" then [""]
    else
      var rest := Split(s[1..], sep);
      if s[0] == sep then [""] + rest else [[s[0]] + rest[0]] + rest[1..]
  }

  /** sep.join(parts) */
  function Join(parts: seq<string>, sep: char): string {
    if |parts| == 0 then ""
    else if |parts| == 1 then parts[0]
    else parts[0] + [sep] + Join(parts[1..], sep)
  }

  lemma {:induction false} JoinSplit(s: string, sep: char)
    ensures Join(Split(s, sep), sep) == s
    ensures forall i :: 0 <= i < |Split(s, sep)| ==> sep !in Split(s, sep)[i]
  {
    if s != "" {
      JoinSplit(s[1..], sep);
      var parts, rest := Split(s, sep), Split(s[1..], sep);
      if s[0] == sep {
        assert parts[1..] == rest;
        assert s == "" + [sep] + s[1..];
      } else {
        assert parts[1..] == rest[1..];
        assert s == [s[0]] + s[1..];
      }
    }
  }

  lemma {:induction false} SplitOne(s: string, sep: char)
    requires sep !in s
    ensures Split(s, sep) == [s]
  {
    if s != "" {
      SplitOne(s[1..], sep);
      assert [s[0]] + s[1..] == s;
    }
  }

  lemma {:induction false} SplitFirst(a: string, b: string, sep: char)
    requires sep !in a
    ensures Split(a + [sep] + b, sep) == [a] + Split(b, sep)
  {
    var s := a + [sep] + b;
    if a == "" {
      assert s[1..] == b;
    } else {
      assert s[1..] == a[1..] + [sep] + b;
      SplitFirst(a[1..], b, sep);
      assert [a[0]] + a[1..] == a;
    }
  }

  lemma {:induction false} SplitJoin(parts: seq<string>, sep: char)
    requires |parts| >= 1 && forall i :: 0 <= i < |parts| ==> sep !in parts[i]
    ensures Split(Join(parts, sep), sep) == parts
  {
    if |parts| == 1 {
      SplitOne(parts[0], sep);
    } else {
      SplitJoin(parts[1..], sep);
      SplitFirst(parts[0], Join(parts[1..], sep), sep);
      assert parts == [parts[0]] + parts[1..];
    }
  }

  /** The parts that hold anything, in order. */
  function NonEmpty(parts: seq<string>): (r: seq<string>)
    ensures forall i :: 0 <= i < |r| ==> r[i] != "" && r[i] in parts
  {
    if parts == [] then []
    else if parts[0] == "" then NonEmpty(parts[1..])
    else [parts[0]] + NonEmpty(parts[1..])
  }

  /** Nothing but the empty parts is lost, and the order stays. */
  lemma {:induction false} NonEmptyConcat(a: seq<string>, b: seq<string>)
    ensures NonEmpty(a + b) == NonEmpty(a) + NonEmpty(b)
  {
    if a == [] {
      assert a + b == b;
    } else {
      assert (a + b)[1..] == a[1..] + b;
      NonEmptyConcat(a[1..], b);
    }
  }
}
