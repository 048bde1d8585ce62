/** From what a caller hands over to the columns a row carries: the two names of strangers are
    cleaned, and the names of the set parameters become one sorted JSON text. */
module Entries {
  import opened Basics
  import opened Canonical
  import opened Rows
  import opened Printing
  import Names

  /** `entry.params` is not looked at; `params` stands for it. */
  datatype Draft = Draft(entry: Entry, params: set<string>)

  function Texts(names: seq<string>): (vs: seq<Value>)
    ensures |vs| == |names| && forall i :: 0 <= i < |vs| ==> vs[i] == Text(names[i])
  {
    seq(|names|, i requires 0 <= i < |names| => Text(names[i]))
  }

  function TextsOf(vs: seq<Value>): (names: seq<string>)
    requires forall i :: 0 <= i < |vs| ==> vs[i].Text?
    ensures |names| == |vs| && forall i :: 0 <= i < |vs| ==> names[i] == vs[i].s
  {
    seq(|vs|, i requires 0 <= i < |vs| => vs[i].s)
  }

  /** A JSON list of texts, and nothing behind it. */
  function ReadTexts(s: string): Option<seq<string>> {
    match ReadList(s)
    case None => None
    case Some((vs, rest)) =>
      if rest == "" && forall i :: 0 <= i < |vs| ==> vs[i].Text? then Some(TextsOf(vs)) else None
  }

  /** The names of a list are read back out of its JSON text, whatever signs a name holds. */
  lemma TextsReadBack(names: seq<string>)
    ensures ReadTexts(Encode(Texts(names))) == Some(names)
  {
    hide Encode, ReadList;
    ListReadsBack(Texts(names), "");
    assert Encode(Texts(names)) + "" == Encode(Texts(names));
    assert TextsOf(Texts(names)) == names;
  }

  function ParamsText(names: set<string>): string {
    Encode(Texts(Names.Sorted(names)))
  }

  function Written(d: Draft, ok: char -> bool): Entry {
    d.entry.(
      actor := Clamped(d.entry.actor, ACTOR_LIMIT, ok),
      clientName := Clamped(d.entry.clientName, CLIENT_NAME_LIMIT, ok),
      params := ParamsText(d.params))
  }

  /** The two names are cleaned at 64 and at 80 characters, and the other columns are the ones handed
      over. */
  lemma WrittenColumns(d: Draft, ok: char -> bool)
    ensures var w, e := Written(d, ok), d.entry;
            && w.actor == Clamped(e.actor, 64, ok) && w.clientName == Clamped(e.clientName, 80, ok)
            && w.chain == e.chain && w.kind == e.kind && w.at == e.at && w.ncUser == e.ncUser && w.tool == e.tool
            && w.clientId == e.clientId && w.authId == e.authId && w.outcome == e.outcome && w.reason == e.reason
            && w.durationMs == e.durationMs && w.removed == e.removed
            && w.gapChain == e.gapChain && w.gapHash == e.gapHash
  {
    hide Clamped, ParamsText;
  }

  /** The text of the parameter names says which they were, whatever signs a name holds. */
  lemma ParamsTextInjective(a: set<string>, b: set<string>)
    requires ParamsText(a) == ParamsText(b)
    ensures a == b
  {
    hide Encode, ReadTexts, Texts, Names.Before, Names.Sorted;
    TextsReadBack(Names.Sorted(a));
    TextsReadBack(Names.Sorted(b));
  }

  /** One digest, one set of parameter names and one pair of cleaned names. */
  lemma DigestNamesTheDraft(m: int, d: Draft, p: Hash, n: int, e: Draft, q: Hash, ok: char -> bool)
    requires HashOf(m, Written(d, ok), p) == HashOf(n, Written(e, ok), q)
    ensures m == n && p == q && d.params == e.params
    ensures Clamped(d.entry.actor, ACTOR_LIMIT, ok) == Clamped(e.entry.actor, ACTOR_LIMIT, ok)
    ensures Clamped(d.entry.clientName, CLIENT_NAME_LIMIT, ok) == Clamped(e.entry.clientName, CLIENT_NAME_LIMIT, ok)
  {
    hide HashOf, ParamsText, Clamped;
    HashOfInjective(m, Written(d, ok), p, n, Written(e, ok), q);
    ParamsTextInjective(d.params, e.params);
  }

  /** Cleaning a name that was cleaned twice changes nothing. */
  lemma ClampedStays(raw: Option<string>, limit: nat, ok: char -> bool)
    ensures var twice := Clamped(Clamped(raw, limit, ok), limit, ok);
            Clamped(twice, limit, ok) == twice
  {
    hide Printable;
    match raw
    case None =>
    case Some(s) =>
      TwoPassesAreStable(s, limit, ok);
  }

  /** A call is cleaned by the recorder and by the store. The row of it reads back as what was
      written, its parameter names among it, and written again it is the same row. */
  lemma WrittenReadsBack(no: int, d: Draft, actor: Option<string>, name: Option<string>, ok: char -> bool)
    requires d.entry.actor == Clamped(actor, ACTOR_LIMIT, ok)
    requires d.entry.clientName == Clamped(name, CLIENT_NAME_LIMIT, ok)
    ensures var back := EntryOfRow(RowValues(no, Written(d, ok)));
            && back == Written(d, ok) && Written(Draft(back, d.params), ok) == back
            && ReadTexts(back.params) == Some(Names.Sorted(d.params))
  {
    hide Clamped, ReadTexts, Encode, Names.Sorted;
    TextsReadBack(Names.Sorted(d.params));
    EntryRoundTrip(no, Written(d, ok));
    ClampedStays(actor, ACTOR_LIMIT, ok);
    ClampedStays(name, CLIENT_NAME_LIMIT, ok);
  }

  /** The fixed actor of markers and switch rows is left as it is. */
  lemma UnknownActorPasses(ok: char -> bool)
    requires AllInk(ACTOR_UNKNOWN, ok)
    ensures Clamped(Some(ACTOR_UNKNOWN), ACTOR_LIMIT, ok) == Some(ACTOR_UNKNOWN)
  {
    assert Tidy(ACTOR_UNKNOWN, ok) && !EndsInSpace(ACTOR_UNKNOWN);
    TidyStays(ACTOR_UNKNOWN, ok);
  }
}
