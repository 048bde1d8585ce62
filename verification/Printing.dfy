/** The one cleaning rule for names a stranger wrote. The rule is not a fixed point after one
    pass, because the cut can leave a space at the end; it is one after two, and two passes are
    what every stored name has been through. `ok` is the character table, any table. */
module Printing {
  import opened Basics
  import opened Text

  const CLIENT_NAME_LIMIT := 80
  const ACTOR_LIMIT := 64

  /** A character that leaves ink: printable and not white space. */
  predicate Inked(c: char, ok: char -> bool) {
    ok(c) && !IsSpace(c)
  }

  /** Every character the table refuses becomes a space. */
  function Replaced(raw: string, ok: char -> bool): (s: string)
    ensures |s| == |raw|
    ensures forall i :: 0 <= i < |s| ==> s[i] == if ok(raw[i]) then raw[i] else ' '
  {
    seq(|raw|, i requires 0 <= i < |raw| => if ok(raw[i]) then raw[i] else ' ')
  }

  /** s.split(): the words between runs of white space of any kind. */
  function Words(s: string): (words: seq<string>) {
    NonEmpty(Split(Replaced(s, c => !IsSpace(c)), ' '))
  }

  function Collapsed(raw: string, ok: char -> bool): string {
    Join(Words(Replaced(raw, ok)), ' ')
  }

  function Cut(s: string, limit: nat): string {
    if |s| <= limit then s else s[..limit]
  }

  function Printable(raw: string, limit: nat, ok: char -> bool): string {
    Cut(Collapsed(raw, ok), limit)
  }

  /** The rule of one column: nothing left to print means no name at all. */
  function Clamped(raw: Option<string>, limit: nat, ok: char -> bool): Option<string> {
    match raw
    case None => None
    case Some(s) =>
      var t := Printable(s, limit, ok);
      if t == "" then None else Some(t)
  }

  /** One line of single-spaced words: no white space but single spaces, none in front. */
  predicate Tidy(s: string, ok: char -> bool) {
    && (forall i :: 0 <= i < |s| ==> s[i] == ' ' || Inked(s[i], ok))
    && (forall i :: 0 <= i < |s| && s[i] == ' ' ==> i > 0 && s[i - 1] != ' ')
  }

  predicate EndsInSpace(s: string) {
    s != "" && s[|s| - 1] == ' '
  }

  // ------------------------------------------------------------------ words

  /** What both replacements come to: only inked characters survive as they are. */
  lemma SpacedInk(raw: string, ok: char -> bool, s: string)
    requires s == Replaced(Replaced(raw, ok), c => !IsSpace(c))
    ensures |s| == |raw|
    ensures forall i :: 0 <= i < |s| ==> s[i] == if Inked(raw[i], ok) then raw[i] else ' '
  {
  }

  /** Inked characters only, and no space among them, whatever the table says of a space. */
  predicate AllInk(word: string, ok: char -> bool) {
    forall k :: 0 <= k < |word| ==> word[k] != ' ' && Inked(word[k], ok)
  }

  predicate AllWordsInk(words: seq<string>, ok: char -> bool) {
    forall i :: 0 <= i < |words| ==> AllInk(words[i], ok)
  }

  lemma {:induction false} PartsInk(s: string, ok: char -> bool)
    requires forall i :: 0 <= i < |s| ==> s[i] == ' ' || Inked(s[i], ok)
    ensures AllWordsInk(Split(s, ' '), ok)
  {
    if s != "" {
      PartsInk(s[1..], ok);
      var parts, rest := Split(s, ' '), Split(s[1..], ' ');
      if s[0] == ' ' {
        assert parts == [""] + rest;
      } else {
        assert parts == [[s[0]] + rest[0]] + rest[1..];
        assert AllInk([s[0]] + rest[0], ok);
      }
    }
  }

  lemma WordsInk(raw: string, ok: char -> bool)
    ensures var words := Words(Replaced(raw, ok));
            forall i :: 0 <= i < |words| ==> words[i] != "" && AllInk(words[i], ok)
  {
    var s := Replaced(Replaced(raw, ok), c => !IsSpace(c));
    SpacedInk(raw, ok, s);
    PartsInk(s, ok);
    assert Words(Replaced(raw, ok)) == NonEmpty(Split(s, ' '));
  }

  lemma {:induction false} JoinTidy(words: seq<string>, ok: char -> bool)
    requires forall i :: 0 <= i < |words| ==> words[i] != "" && AllInk(words[i], ok)
    ensures Tidy(Join(words, ' '), ok) && !EndsInSpace(Join(words, ' '))
    ensures Join(words, ' ') == "" <==> words == []
  {
    if |words| > 1 {
      JoinTidy(words[1..], ok);
      var s, head, tail := Join(words, ' '), words[0], Join(words[1..], ' ');
      assert s == head + [' '] + tail;
      forall i | 0 <= i < |s|
        ensures s[i] == ' ' || Inked(s[i], ok)
        ensures s[i] == ' ' ==> i > 0 && s[i - 1] != ' '
      {
        if i > |head| {
          assert s[i] == tail[i - |head| - 1];
        }
      }
    }
  }

  lemma CollapsedTidy(raw: string, ok: char -> bool)
    ensures Tidy(Collapsed(raw, ok), ok) && !EndsInSpace(Collapsed(raw, ok))
  {
    WordsInk(raw, ok);
    JoinTidy(Words(Replaced(raw, ok)), ok);
  }

  // -------------------------------------------------------- character by character

  /** The rule in one pass over the characters: ink is written as it stands, and where something
      else lies between two inked characters, one space. `started` says that ink was written, and
      `gap` that something else came since. */
  function OneLine(raw: string, ok: char -> bool, started: bool, gap: bool): string {
    if raw == "" then ""
    else if Inked(raw[0], ok) then
      (if started && gap then " " else "") + [raw[0]] + OneLine(raw[1..], ok, true, false)
    else OneLine(raw[1..], ok, started, true)
  }

  function Led(words: seq<string>): string {
    if words == [] then "" else " " + words[0] + Led(words[1..])
  }

  lemma {:induction false} JoinIsLed(words: seq<string>)
    requires words != []
    ensures Join(words, ' ') == words[0] + Led(words[1..])
  {
    if |words| == 1 {
      assert words[0] + "" == words[0];
    } else {
      JoinIsLed(words[1..]);
      assert Led(words[1..]) == " " + words[1] + Led(words[2..]);
      assert words[1..][0] == words[1] && words[1..][1..] == words[2..];
    }
  }

  lemma InkParts(c: char, rest: seq<string>)
    requires rest != []
    ensures var parts, line := [[c] + rest[0]] + rest[1..], [c] + (rest[0] + Led(NonEmpty(rest[1..])));
            && parts[0] + Led(NonEmpty(parts[1..])) == line
            && Led(NonEmpty(parts)) == " " + line
            && Join(NonEmpty(parts), ' ') == line
  {
    var word, words := [c] + rest[0], NonEmpty(rest[1..]);
    var parts := [word] + rest[1..];
    assert parts[1..] == rest[1..];
    assert NonEmpty(parts) == [word] + words;
    assert ([word] + words)[1..] == words;
    JoinIsLed([word] + words);
    LedOne(word, words);
    Associative([c], rest[0], Led(words));
  }

  lemma GapParts(rest: seq<string>)
    ensures var parts := [""] + rest;
            parts[0] + Led(NonEmpty(parts[1..])) == Led(NonEmpty(rest)) && NonEmpty(parts) == NonEmpty(rest)
  {
    assert ([""] + rest)[1..] == rest;
    assert "" + Led(NonEmpty(rest)) == Led(NonEmpty(rest));
  }

  lemma NoParts()
    ensures Led([]) == "" && NonEmpty([]) == [] && NonEmpty([""]) == [] && Join([], ' ') == ""
  {
  }

  /** `s` is the text with a space in the place of everything that leaves no ink. */
  lemma {:induction false} LineOfParts(raw: string, ok: char -> bool, s: string)
    requires |s| == |raw| && forall i :: 0 <= i < |s| ==> s[i] == if Inked(raw[i], ok) then raw[i] else ' '
    ensures var parts := Split(s, ' ');
            && OneLine(raw, ok, true, false) == parts[0] + Led(NonEmpty(parts[1..]))
            && OneLine(raw, ok, true, true) == Led(NonEmpty(parts))
            && OneLine(raw, ok, false, false) == OneLine(raw, ok, false, true) == Join(NonEmpty(parts), ' ')
  {
    hide Led, NonEmpty, Join, IsSpace;
    NoParts();
    if s == "" {
      assert Split(s, ' ') == [""] && [""][1..] == [];
    } else {
      LineOfParts(raw[1..], ok, s[1..]);
      var rest := Split(s[1..], ' ');
      if Inked(raw[0], ok) {
        InkIsNoSpace(raw[0], ok);
        assert Split(s, ' ') == [[raw[0]] + rest[0]] + rest[1..];
        InkParts(raw[0], rest);
        Associative(" ", [raw[0]], rest[0] + Led(NonEmpty(rest[1..])));
        Associative("", [raw[0]], rest[0] + Led(NonEmpty(rest[1..])));
      } else {
        assert Split(s, ' ') == [""] + rest;
        GapParts(rest);
      }
    }
  }

  lemma InkIsNoSpace(c: char, ok: char -> bool)
    requires Inked(c, ok)
    ensures c != ' '
  {
  }

  lemma LedOne(word: string, words: seq<string>)
    ensures Led([word] + words) == " " + (word + Led(words))
  {
    assert ([word] + words)[1..] == words;
    Associative(" ", word, Led(words));
  }

  /** The whole rule: the first characters of that line, as many as the limit allows. */
  lemma PrintableIsTheLine(raw: string, limit: nat, ok: char -> bool)
    ensures var line, t := OneLine(raw, ok, false, false), Printable(raw, limit, ok);
            t <= line && |t| == if |line| <= limit then |line| else limit
  {
    var s := Replaced(Replaced(raw, ok), c => !IsSpace(c));
    SpacedInk(raw, ok, s);
    LineOfParts(raw, ok, s);
  }

  // ----------------------------------------------------------- fixed points

  lemma {:induction false} PartsOfTidy(s: string)
    requires !EndsInSpace(s)
    requires forall i :: 0 < i < |s| && s[i] == ' ' ==> s[i - 1] != ' '
    ensures var parts := Split(s, ' ');
            && (parts[0] == "" <==> s == "" || s[0] == ' ')
            && forall i :: 0 < i < |parts| ==> parts[i] != ""
  {
    if s != "" {
      PartsOfTidy(s[1..]);
    }
  }

  lemma {:induction false} AllNonEmpty(parts: seq<string>)
    requires forall i :: 0 <= i < |parts| ==> parts[i] != ""
    ensures NonEmpty(parts) == parts
  {
    if parts != [] {
      AllNonEmpty(parts[1..]);
    }
  }

  /** A tidy text that does not end in a space is what the rule leaves alone. */
  lemma TidyStays(s: string, ok: char -> bool)
    requires Tidy(s, ok) && !EndsInSpace(s)
    ensures Collapsed(s, ok) == s
  {
    var spaced := Replaced(Replaced(s, ok), c => !IsSpace(c));
    SpacedInk(s, ok, spaced);
    assert spaced == s;
    if s != "" {
      PartsOfTidy(s);
      AllNonEmpty(Split(s, ' '));
      JoinSplit(s, ' ');
    }
  }

  lemma {:induction false} SplitTrailing(s: string)
    ensures Split(s + " ", ' ') == Split(s, ' ') + [""]
  {
    if s == "" {
      assert s + " " == " ";
    } else {
      assert (s + " ")[1..] == s[1..] + " ";
      SplitTrailing(s[1..]);
    }
  }

  lemma {:induction false} NonEmptyTrailing(parts: seq<string>)
    ensures NonEmpty(parts + [""]) == NonEmpty(parts)
  {
    if parts != [] {
      assert (parts + [""])[1..] == parts[1..] + [""];
      NonEmptyTrailing(parts[1..]);
    }
  }

  lemma TrailingSpaceGoes(s: string, ok: char -> bool)
    requires EndsInSpace(s)
    ensures Collapsed(s, ok) == Collapsed(s[..|s| - 1], ok)
  {
    var cut := s[..|s| - 1];
    var spaced := Replaced(Replaced(cut, ok), c => !IsSpace(c));
    assert Replaced(Replaced(s, ok), c => !IsSpace(c)) == spaced + " ";
    SplitTrailing(spaced);
    NonEmptyTrailing(Split(spaced, ' '));
  }

  // ------------------------------------------------------------ the results

  /** One pass gives one line of single-spaced words within the limit; a second pass takes
      away a space at its end and nothing else. */
  lemma SecondPass(raw: string, limit: nat, ok: char -> bool)
    ensures var once := Printable(raw, limit, ok);
            && Tidy(once, ok) && |once| <= limit
            && Printable(once, limit, ok) == if EndsInSpace(once) then once[..|once| - 1] else once
  {
    CollapsedTidy(raw, ok);
    var once := Printable(raw, limit, ok);
    if EndsInSpace(once) {
      TrailingSpaceGoes(once, ok);
      TidyStays(once[..|once| - 1], ok);
    } else {
      TidyStays(once, ok);
    }
  }

  /** Exactly when one pass is enough: unless the cut falls right behind a space. */
  lemma OnePassIsEnough(raw: string, limit: nat, ok: char -> bool)
    ensures var once := Printable(raw, limit, ok);
            var whole := Collapsed(raw, ok);
            Printable(once, limit, ok) == once <==> !(0 < limit < |whole| && whole[limit - 1] == ' ')
  {
    CollapsedTidy(raw, ok);
    SecondPass(raw, limit, ok);
  }

  lemma CutBehindSpace(word: string, limit: nat, ok: char -> bool)
    requires |word| + 1 == limit && AllInk(word, ok) && word != "" && AllInk("b", ok)
    ensures Printable(word + " b", limit, ok) == word + " "
    ensures Printable(word + " ", limit, ok) == word
  {
    var raw := word + " b";
    assert raw == word + [' '] + "b" == Join([word, "b"], ' ');
    JoinTidy([word, "b"], ok);
    TidyStays(raw, ok);
    assert raw[..limit] == word + " ";
    SecondPass(raw, limit, ok);
    assert (word + " ")[..limit - 1] == word;
  }

  /** One pass is not always enough, at either of the two bounds of a column: a name whose
      bound falls right behind a space keeps that space after one pass and loses it in the next. */
  lemma OnePassCanFail()
    ensures var word := seq(CLIENT_NAME_LIMIT - 1, _ => 'a');
            Printable(word + " b", CLIENT_NAME_LIMIT, c => true) == word + " " &&
            Printable(word + " ", CLIENT_NAME_LIMIT, c => true) == word
    ensures var word := seq(ACTOR_LIMIT - 1, _ => 'a');
            Printable(word + " b", ACTOR_LIMIT, c => true) == word + " " &&
            Printable(word + " ", ACTOR_LIMIT, c => true) == word
  {
    hide Printable;
    CutBehindSpace(seq(CLIENT_NAME_LIMIT - 1, _ => 'a'), CLIENT_NAME_LIMIT, c => true);
    CutBehindSpace(seq(ACTOR_LIMIT - 1, _ => 'a'), ACTOR_LIMIT, c => true);
  }

  /** A third pass changes nothing, whatever the name, the limit and the character table. */
  lemma TwoPassesAreStable(raw: string, limit: nat, ok: char -> bool)
    ensures var twice := Printable(Printable(raw, limit, ok), limit, ok);
            Printable(twice, limit, ok) == twice && !EndsInSpace(twice)
  {
    var once := Printable(raw, limit, ok);
    SecondPass(raw, limit, ok);
    SecondPass(once, limit, ok);
    if EndsInSpace(once) {
      assert once[|once| - 1] == ' ';
      assert once[|once| - 2] != ' ';
    }
  }

  lemma {:induction false} NonEmptyExists(parts: seq<string>)
    ensures NonEmpty(parts) == [] <==> AllEmpty(parts)
  {
    if parts != [] {
      NonEmptyExists(parts[1..]);
      assert parts == [parts[0]] + parts[1..];
    }
  }

  predicate AllEmpty(parts: seq<string>) {
    forall i :: 0 <= i < |parts| ==> parts[i] == ""
  }

  predicate AllSpaces(s: string) {
    forall i :: 0 <= i < |s| ==> s[i] == ' '
  }

  lemma {:induction false} SplitBlank(s: string)
    ensures AllEmpty(Split(s, ' ')) <==> AllSpaces(s)
  {
    if s != "" {
      SplitBlank(s[1..]);
      var parts, rest := Split(s, ' '), Split(s[1..], ' ');
      assert s == [s[0]] + s[1..];
      if s[0] == ' ' {
        assert parts == [""] + rest;
        assert AllSpaces(s) <==> AllSpaces(s[1..]);
        assert AllEmpty(parts) ==> AllEmpty(rest) by {
          assert forall i :: 0 <= i < |rest| ==> rest[i] == parts[i + 1];
        }
      } else {
        assert parts[0] != "";
      }
    }
  }

  /** A name is dropped exactly when it holds no inked character. */
  lemma NobodyIsNamed(raw: string, limit: nat, ok: char -> bool)
    requires limit > 0
    ensures Printable(raw, limit, ok) == "" <==> forall i :: 0 <= i < |raw| ==> !Inked(raw[i], ok)
  {
    var spaced := Replaced(Replaced(raw, ok), c => !IsSpace(c));
    SpacedInk(raw, ok, spaced);
    SplitBlank(spaced);
    NonEmptyExists(Split(spaced, ' '));
    WordsInk(raw, ok);
    JoinTidy(Words(Replaced(raw, ok)), ok);
  }

  /** One column: no name stays none, a name without ink becomes none, and any other one is the
      first characters of its line. */
  lemma ClampedIsTheLine(raw: string, limit: nat, ok: char -> bool)
    requires limit > 0
    ensures Clamped(None, limit, ok) == None
    ensures Clamped(Some(raw), limit, ok).None? <==> forall i :: 0 <= i < |raw| ==> !Inked(raw[i], ok)
    ensures var line, t := OneLine(raw, ok, false, false), Clamped(Some(raw), limit, ok);
            t.Some? ==> t.value <= line && |t.value| == if |line| <= limit then |line| else limit
  {
    hide Printable, OneLine, Inked;
    NobodyIsNamed(raw, limit, ok);
    PrintableIsTheLine(raw, limit, ok);
  }

  /** What a row carries after the recorder and the store have both cleaned the name: nothing
      exactly when the name had no ink, and otherwise one line within the limit that every
      reader prints as it stands. */
  lemma StoredNamePrintsAsItStands(raw: string, limit: nat, ok: char -> bool)
    requires limit > 0
    ensures var stored := Clamped(Clamped(Some(raw), limit, ok), limit, ok);
            && (stored.None? <==> forall i :: 0 <= i < |raw| ==> !Inked(raw[i], ok))
            && (stored.Some? ==>
                  && stored.value != "" && |stored.value| <= limit
                  && Tidy(stored.value, ok) && !EndsInSpace(stored.value)
                  && Printable(stored.value, limit, ok) == stored.value)
  {
    var once := Printable(raw, limit, ok);
    NobodyIsNamed(raw, limit, ok);
    SecondPass(raw, limit, ok);
    SecondPass(once, limit, ok);
    TwoPassesAreStable(raw, limit, ok);
    if once != "" {
      assert once[0] != ' ';
    }
  }

  /** No word is melted into its neighbour and none is lost: the collapsed line has the words
      of the replaced text, in order. */
  lemma WordsAreKept(raw: string, ok: char -> bool)
    ensures Words(Replaced(Collapsed(raw, ok), ok)) == Words(Replaced(raw, ok))
  {
    var words := Words(Replaced(raw, ok));
    var s := Collapsed(raw, ok);
    CollapsedTidy(raw, ok);
    WordsInk(raw, ok);
    var spaced := Replaced(Replaced(s, ok), c => !IsSpace(c));
    SpacedInk(s, ok, spaced);
    assert spaced == s;
    if words != [] {
      forall i | 0 <= i < |words|
        ensures ' ' !in words[i]
      {
      }
      SplitJoin(words, ' ');
      AllNonEmpty(words);
    }
  }
}
