/** The rows of the one table, their digests, and the selections every statement is made of. */
module Rows {
  import opened Basics
  import opened Canonical

  // --------------------------------------------------------------- digests

  /** What a digest can be: the 32 zero bytes a chain starts from, or the SHA-256 of some
      input. The constructor is free, so two inputs with one digest do not exist here. */
  datatype Hash = Genesis | Sha256(input: string)

  /** The bytes of a digest, and its hexadecimal text: any injective rendering will do. */
  function Hex(h: Hash): string {
    match h
    case Genesis => "0"
    case Sha256(input) => Quote(input)
  }

  lemma HexInjective(g: Hash, h: Hash)
    requires Hex(g) == Hex(h)
    ensures g == h
  {
    if g.Genesis? || h.Genesis? {
      assert Hex(g)[0] == Hex(h)[0];
    } else {
      QuotePrefixFree(g.input, h.input, "", "");
    }
  }

  // ------------------------------------------------------------------ rows

  const CHAIN_INSTANCE := "i:instance"
  const CHAIN_EXCHANGE := "x:exchange"
  const USER_CHAIN_PREFIX := "u:"

  const KIND_CALL := "call"
  const KIND_TOMBSTONE := "tombstone"
  const KIND_SWITCH := "switch"
  const KIND_REFUSAL := "refusal"

  const OUTCOME_REJECTED := "rejected"
  const ACTOR_UNKNOWN := "unknown"

  /** The columns a caller fills; the store adds the number and the two hashes. `params` is the
      JSON text of the parameter names. */
  datatype Entry = Entry(
    chain: string, kind: string, at: int, actor: Option<string> := None,
    ncUser: Option<string> := None, tool: Option<string> := None,
    clientId: Option<string> := None, authId: Option<string> := None,
    clientName: Option<string> := None, outcome: Option<string> := None,
    reason: Option<string> := None, durationMs: Option<int> := None,
    params: string := "[]", removed: Option<int> := None,
    gapChain: Option<string> := None, gapHash: Option<string> := None)

  datatype Row = Row(no: int, entry: Entry, prev: Hash, hash: Hash)

  function UserChain(user: string): (chain: string) {
    USER_CHAIN_PREFIX + user
  }

  function OptionalText(t: Option<string>): Value {
    match t case None => Null case Some(s) => Text(s)
  }

  function OptionalInt(n: Option<int>): Value {
    match n case None => Null case Some(i) => Int(i)
  }

  /** The seventeen columns in the order they are hashed in, the number first. */
  function RowValues(no: int, e: Entry): seq<Value> {
    [Int(no), Text(e.chain), Text(e.kind), Int(e.at), OptionalText(e.actor),
     OptionalText(e.ncUser), OptionalText(e.tool), OptionalText(e.clientId),
     OptionalText(e.authId), OptionalText(e.clientName), OptionalText(e.outcome),
     OptionalText(e.reason), OptionalInt(e.durationMs), Text(e.params),
     OptionalInt(e.removed), OptionalText(e.gapChain), OptionalText(e.gapHash)]
  }

  function TextOf(v: Value): Option<string> {
    match v case Text(s) => Some(s) case _ => None
  }

  function IntOf(v: Value): Option<int> {
    match v case Int(n) => Some(n) case _ => None
  }

  /** The left inverse of RowValues, up to the number. A column of the wrong type reads as its
      default, which no row this model writes has. */
  function EntryOfRow(v: seq<Value>): Entry
    requires |v| == 17
  {
    Entry(Get(TextOf(v[1]), ""), Get(TextOf(v[2]), ""), Get(IntOf(v[3]), 0), TextOf(v[4]),
          TextOf(v[5]), TextOf(v[6]), TextOf(v[7]), TextOf(v[8]), TextOf(v[9]), TextOf(v[10]),
          TextOf(v[11]), IntOf(v[12]), Get(TextOf(v[13]), ""), IntOf(v[14]), TextOf(v[15]),
          TextOf(v[16]))
  }

  /** Writing a row out and reading it back gives the same entry, field by field. */
  lemma EntryRoundTrip(no: int, e: Entry)
    ensures EntryOfRow(RowValues(no, e)) == e && RowValues(no, e)[0] == Int(no)
  {
  }

  /** The digest of a row: its canonical form with the predecessor hash right behind it. */
  function HashOf(no: int, e: Entry, prev: Hash): (h: Hash)
    ensures h != Genesis
  {
    Sha256(Encode(RowValues(no, e)) + Hex(prev))
  }

  /** The columns by their names in the schema. */
  const COLUMNS := ["seq", "chain", "kind", "at", "actor", "nc_user", "tool", "client_id", "auth_id", "client_name",
                    "outcome", "reason", "duration_ms", "params", "removed", "gap_chain", "gap_hash"]

  function ColumnNamed(no: int, e: Entry, name: string): Value {
    match name
    case "seq" => Int(no)
    case "chain" => Text(e.chain)
    case "kind" => Text(e.kind)
    case "at" => Int(e.at)
    case "actor" => OptionalText(e.actor)
    case "nc_user" => OptionalText(e.ncUser)
    case "tool" => OptionalText(e.tool)
    case "client_id" => OptionalText(e.clientId)
    case "auth_id" => OptionalText(e.authId)
    case "client_name" => OptionalText(e.clientName)
    case "outcome" => OptionalText(e.outcome)
    case "reason" => OptionalText(e.reason)
    case "duration_ms" => OptionalInt(e.durationMs)
    case "params" => Text(e.params)
    case "removed" => OptionalInt(e.removed)
    case "gap_chain" => OptionalText(e.gapChain)
    case "gap_hash" => OptionalText(e.gapHash)
    case _ => Null
  }

  lemma ColumnsInOrder(no: int, e: Entry, i: nat)
    requires i < 17
    ensures |RowValues(no, e)| == |COLUMNS| == 17 && RowValues(no, e)[i] == ColumnNamed(no, e, COLUMNS[i])
  {
  }

  /** What is digested is the JSON list of the columns in the order of the schema, and behind it
      the digest of the predecessor. */
  lemma DigestIsOverTheRow(no: int, e: Entry, prev: Hash)
    ensures HashOf(no, e, prev).Sha256?
    ensures ReadList(HashOf(no, e, prev).input) == Some((RowValues(no, e), Hex(prev)))
  {
    hide Encode, ReadList, Hex, RowValues;
    ListReadsBack(RowValues(no, e), Hex(prev));
  }

  /** One digest belongs to one number, one content and one predecessor. */
  lemma HashOfInjective(m: int, d: Entry, p: Hash, n: int, e: Entry, q: Hash)
    requires HashOf(m, d, p) == HashOf(n, e, q)
    ensures m == n && d == e && p == q
  {
    EncodePrefixFree(RowValues(m, d), RowValues(n, e), Hex(p), Hex(q));
    EntryRoundTrip(m, d);
    EntryRoundTrip(n, e);
    HexInjective(p, q);
  }

  /** The row carries its own digest: nobody changed it after it was written. */
  predicate Intact(r: Row) {
    r.hash == HashOf(r.no, r.entry, r.prev)
  }

  /** A marker that explains a gap, the only kind of row a consolidation absorbs. */
  predicate IsMarker(e: Entry) {
    e.kind == KIND_TOMBSTONE && e.gapChain.Some? && e.gapHash.Some?
  }

  // ------------------------------------------------------------ selections

  /** The conditions of the statements. `Barriers` are the rows of the instance chain that no
      consolidation crosses; `Sweepable` are the rows a sweep may take at all. */
  datatype Query =
    | OfChain(chain: string)
    | OfKind(kind: string)
    | MarkersFor(gapChain: string)
    | Barriers
    | Switches
    | Sweepable
    | Among(numbers: set<int>)
    | Outside(numbers: set<int>)

  predicate Matches(q: Query, r: Row) {
    match q
    case OfChain(c) => r.entry.chain == c
    case OfKind(k) => r.entry.kind == k
    case MarkersFor(c) =>
      r.entry.chain == CHAIN_INSTANCE && IsMarker(r.entry) && r.entry.gapChain == Some(c)
    case Barriers => r.entry.chain == CHAIN_INSTANCE && !IsMarker(r.entry)
    case Switches => r.entry.chain == CHAIN_INSTANCE && r.entry.kind == KIND_SWITCH
    case Sweepable => r.entry.chain != CHAIN_INSTANCE
    case Among(s) => r.no in s
    case Outside(s) => r.no !in s
  }

  /** SELECT ... WHERE q ORDER BY seq */
  function Select(rows: seq<Row>, q: Query): (s: seq<Row>)
    ensures |s| <= |rows|
  {
    if rows == [] then []
    else Select(rows[..|rows| - 1], q)
         + if Matches(q, rows[|rows| - 1]) then [rows[|rows| - 1]] else []
  }

  /** The table is keyed by the number, so the rows stand in its order. */
  ghost predicate Ordered(rows: seq<Row>) {
    forall i, j :: 0 <= i < j < |rows| ==> rows[i].no < rows[j].no
  }

  function Numbers(rows: seq<Row>): (s: set<int>)
    ensures forall r :: r in rows ==> r.no in s
    ensures forall n :: n in s ==> exists r :: r in rows && r.no == n
  {
    set r | r in rows :: r.no
  }

  lemma SelectOne(rows: seq<Row>, r: Row, q: Query)
    ensures Select(rows + [r], q) == if Matches(q, r) then Select(rows, q) + [r] else Select(rows, q)
  {
    assert (rows + [r])[..|rows|] == rows;
  }

  lemma SelectLast(rows: seq<Row>, q: Query)
    requires rows != []
    ensures var a, r := rows[..|rows| - 1], rows[|rows| - 1];
            Select(rows, q) == if Matches(q, r) then Select(a, q) + [r] else Select(a, q)
  {
  }

  lemma {:induction false} SelectConcat(a: seq<Row>, b: seq<Row>, q: Query)
    ensures Select(a + b, q) == Select(a, q) + Select(b, q)
  {
    if b == [] {
      assert a + b == a;
    } else {
      var c, r := b[..|b| - 1], b[|b| - 1];
      assert a + b == (a + c) + [r] && b == c + [r];
      SelectConcat(a, c, q);
      SelectOne(a + c, r, q);
      SelectOne(c, r, q);
    }
  }

  lemma {:induction false} SelectMembers(rows: seq<Row>, q: Query)
    ensures forall r :: r in Select(rows, q) <==> r in rows && Matches(q, r)
  {
    if rows != [] {
      SelectMembers(rows[..|rows| - 1], q);
      assert rows == rows[..|rows| - 1] + [rows[|rows| - 1]];
    }
  }

  lemma {:induction false} SelectCommutes(rows: seq<Row>, p: Query, q: Query)
    ensures Select(Select(rows, p), q) == Select(Select(rows, q), p)
  {
    if rows != [] {
      var a, r := rows[..|rows| - 1], rows[|rows| - 1];
      SelectCommutes(a, p, q);
      SelectLast(rows, p);
      SelectLast(rows, q);
      SelectOne(Select(a, p), r, q);
      SelectOne(Select(a, q), r, p);
    }
  }

  lemma {:induction false} SelectAll(rows: seq<Row>, q: Query)
    requires forall r :: r in rows ==> Matches(q, r)
    ensures Select(rows, q) == rows
  {
    if rows != [] {
      SelectAll(rows[..|rows| - 1], q);
    }
  }

  lemma {:induction false} SelectNone(rows: seq<Row>, q: Query)
    requires forall r :: r in rows ==> !Matches(q, r)
    ensures Select(rows, q) == []
  {
    if rows != [] {
      SelectNone(rows[..|rows| - 1], q);
    }
  }

  /** A condition that implies another one selects the same rows inside that selection. */
  lemma {:induction false} SelectWithin(rows: seq<Row>, p: Query, q: Query)
    requires forall r :: r in rows && Matches(q, r) ==> Matches(p, r)
    ensures Select(Select(rows, p), q) == Select(rows, q)
  {
    if rows != [] {
      var a, r := rows[..|rows| - 1], rows[|rows| - 1];
      SelectWithin(a, p, q);
      SelectLast(rows, p);
      SelectLast(rows, q);
      SelectOne(Select(a, p), r, q);
    }
  }

  lemma {:induction false} SelectSame(rows: seq<Row>, p: Query, q: Query)
    requires forall r :: r in rows ==> (Matches(p, r) <==> Matches(q, r))
    ensures Select(rows, p) == Select(rows, q)
  {
    if rows != [] {
      SelectSame(rows[..|rows| - 1], p, q);
    }
  }

  lemma {:induction false} SelectOrdered(rows: seq<Row>, q: Query)
    requires Ordered(rows)
    ensures Ordered(Select(rows, q))
  {
    if rows != [] {
      var a, r := rows[..|rows| - 1], rows[|rows| - 1];
      SelectOrdered(a, q);
      SelectMembers(a, q);
      SelectLast(rows, q);
      forall i | 0 <= i < |Select(a, q)|
        ensures Select(a, q)[i].no < r.no
      {
        assert Select(a, q)[i] in a;
      }
    }
  }

  lemma LastIsHighest(rows: seq<Row>)
    requires Ordered(rows) && rows != []
    ensures rows[|rows| - 1] in rows && forall r :: r in rows ==> r.no <= rows[|rows| - 1].no
  {
  }

  lemma OrderedHalves(a: seq<Row>, b: seq<Row>)
    requires Ordered(a + b)
    ensures forall r :: r in a ==> r.no !in Numbers(b)
  {
    forall r, s | r in a && s in b ensures r.no < s.no {
      var i := IndexOf(a, r);
      var j := IndexOf(b, s);
      assert (a + b)[i] == r && (a + b)[|a| + j] == s;
    }
  }

  lemma SameNumberSameRow(rows: seq<Row>, r: Row, s: Row)
    requires Ordered(rows) && r in rows && s in rows && r.no == s.no
    ensures r == s
  {
    var i :| 0 <= i < |rows| && rows[i] == r;
    var j :| 0 <= j < |rows| && rows[j] == s;
    assert i == j;
  }

  /** When the numbers of the front half and no others are named, the table falls apart
      into its two halves. */
  lemma SelectFront(a: seq<Row>, b: seq<Row>, gone: set<int>)
    requires forall r :: r in a ==> r.no in gone
    requires forall r :: r in b ==> r.no !in gone
    ensures Select(a + b, Among(gone)) == a && Select(a + b, Outside(gone)) == b
  {
    SelectConcat(a, b, Among(gone));
    SelectConcat(a, b, Outside(gone));
    SelectAll(a, Among(gone));
    SelectNone(a, Outside(gone));
    SelectNone(b, Among(gone));
    SelectAll(b, Outside(gone));
  }

  /** The same, with the back half named. */
  lemma SelectBack(a: seq<Row>, b: seq<Row>, gone: set<int>)
    requires forall r :: r in a ==> r.no !in gone
    requires forall r :: r in b ==> r.no in gone
    ensures Select(a + b, Outside(gone)) == a
  {
    SelectConcat(a, b, Outside(gone));
    SelectAll(a, Outside(gone));
    SelectNone(b, Outside(gone));
  }

  lemma IndexOf(rows: seq<Row>, r: Row) returns (i: nat)
    requires r in rows
    ensures i < |rows| && rows[i] == r
  {
    i :| 0 <= i < |rows| && rows[i] == r;
  }

  /** The one row that matches is what is selected. */
  lemma SelectSingle(rows: seq<Row>, k: nat, q: Query)
    requires k < |rows| && Matches(q, rows[k])
    requires forall i :: 0 <= i < |rows| && i != k ==> !Matches(q, rows[i])
    ensures Select(rows, q) == [rows[k]]
  {
    var a, b := rows[..k], rows[k + 1..];
    assert rows == (a + [rows[k]]) + b;
    SelectConcat(a + [rows[k]], b, q);
    SelectOne(a, rows[k], q);
    SelectNone(a, q);
    SelectNone(b, q);
  }

  /** Removing rows is invisible to a condition none of them matches. */
  lemma SelectUntouched(rows: seq<Row>, gone: set<int>, q: Query)
    requires forall r :: r in rows && Matches(q, r) ==> r.no !in gone
    ensures Select(Select(rows, Outside(gone)), q) == Select(rows, q)
  {
    SelectWithin(rows, Outside(gone), q);
  }

  /** COALESCE(SUM(removed), 0) */
  function RemovedSum(rows: seq<Row>): int {
    if rows == [] then 0
    else RemovedSum(rows[..|rows| - 1]) + RemovedOf(rows[|rows| - 1].entry)
  }

  function RemovedOf(e: Entry): int {
    match e.removed case None => 0 case Some(n) => n
  }

  lemma {:induction false} RemovedSumConcat(a: seq<Row>, b: seq<Row>)
    ensures RemovedSum(a + b) == RemovedSum(a) + RemovedSum(b)
  {
    if b == [] {
      assert a + b == a;
    } else {
      assert (a + b)[..|a + b| - 1] == a + b[..|b| - 1];
      RemovedSumConcat(a, b[..|b| - 1]);
    }
  }

  lemma RemovedSumNone()
    ensures RemovedSum([]) == 0
  {
  }

  lemma RemovedSumOne(r: Row)
    ensures RemovedSum([r]) == RemovedOf(r.entry)
  {
    RemovedSumNone();
  }
}
