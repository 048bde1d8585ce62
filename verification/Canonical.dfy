/** The canonical JSON text a row is hashed in (RFC 8259, sections 5 to 7), and a reader of it.

    A row is a list of nulls, integers and texts. It is written without white space, and only
    the quotation mark, the reverse solidus and the control characters are escaped. The reader
    knows nothing of the writer: what it gives back, whatever follows, is what was written. So
    the text means what the standard says, and it is injective and prefix-free. */
module Canonical {
  import opened Basics
  import Strings = Text

  datatype Value = Null | Int(n: int) | Text(s: string)

  function HexDigit(d: int): (c: char)
    requires 0 <= d < 16
  {
    "0123456789abcdef"[d]
  }

  /** One character of a text, escaped where RFC 8259 section 7 demands it. */
  function EscapeChar(c: char): (t: string)
    ensures |t| >= 1 && t[0] != '"'
  {
    if c == '"' then "\\\""
    else if c == '\\' then "\\\\"
    else if c == 8 as char then "\\b"
    else if c == 9 as char then "\\t"
    else if c == 10 as char then "\\n"
    else if c == 12 as char then "\\f"
    else if c == 13 as char then "\\r"
    else if (c as int) < 32 then "\\u00" + [HexDigit(c as int / 16), HexDigit(c as int % 16)]
    else [c]
  }

  function Escape(s: string): string {
    if s == "" then "" else EscapeChar(s[0]) + Escape(s[1..])
  }

  function Quote(s: string): string {
    "\"" + Escape(s) + "\""
  }

  predicate IsDigit(c: char) { '0' <= c <= '9' }

  function DigitChar(d: int): (c: char)
    requires 0 <= d < 10
  {
    '0' + d as char
  }

  function Digits(n: nat): string {
    if n < 10 then [DigitChar(n)] else Digits(n / 10) + [DigitChar(n % 10)]
  }

  function IntText(n: int): string {
    if n < 0 then "-" + Digits(-n) else Digits(n)
  }

  function ValueText(v: Value): string {
    match v
    case Null => "null"
    case Int(n) => IntText(n)
    case Text(s) => Quote(s)
  }

  /** The elements from the first one on, with the bracket that closes the list. */
  function Elements(vs: seq<Value>): string
    requires vs != []
  {
    ValueText(vs[0]) + if |vs| == 1 then "]" else "," + Elements(vs[1..])
  }

  function Encode(vs: seq<Value>): string {
    "[" + if vs == [] then "]" else Elements(vs)
  }

  // --------------------------------------------------------------- reading

  function HexValue(c: char): Option<int> {
    if '0' <= c <= '9' then Some(c as int - '0' as int)
    else if 'a' <= c <= 'f' then Some(c as int - 'a' as int + 10)
    else if 'A' <= c <= 'F' then Some(c as int - 'A' as int + 10)
    else None
  }

  /** The four digits behind a reversed solidus and a u. A half of a surrogate pair is no
      character here. */
  function ReadCode(s: string): Option<char>
    requires |s| >= 4
  {
    var a, b, c, d := HexValue(s[0]), HexValue(s[1]), HexValue(s[2]), HexValue(s[3]);
    if a.None? || b.None? || c.None? || d.None? then None
    else
      var code := ((a.value * 16 + b.value) * 16 + c.value) * 16 + d.value;
      if 0 <= code < 0xD800 || 0xE000 <= code < 0x10000 then Some(code as char) else None
  }

  /** One character of a text, and what follows it. */
  function ReadChar(s: string): (r: Option<(char, string)>)
    ensures r.Some? ==> |r.value.1| < |s|
  {
    if s == "" || s[0] == '"' || (s[0] as int) < 32 then None
    else if s[0] != '\\' then Some((s[0], s[1..]))
    else if |s| < 2 then None
    else if s[1] == '"' || s[1] == '\\' || s[1] == '/' then Some((s[1], s[2..]))
    else if s[1] == 'b' then Some((8 as char, s[2..]))
    else if s[1] == 't' then Some((9 as char, s[2..]))
    else if s[1] == 'n' then Some((10 as char, s[2..]))
    else if s[1] == 'f' then Some((12 as char, s[2..]))
    else if s[1] == 'r' then Some((13 as char, s[2..]))
    else if s[1] == 'u' && |s| >= 6 then
      match ReadCode(s[2..6]) case None => None case Some(c) => Some((c, s[6..]))
    else None
  }

  /** The characters up to the closing quotation mark, and what follows it. */
  function ReadBody(s: string): (r: Option<(string, string)>)
    ensures r.Some? ==> |r.value.1| < |s|
    decreases |s|
  {
    if s != "" && s[0] == '"' then Some(("", s[1..]))
    else
      match ReadChar(s)
      case None => None
      case Some((c, rest)) =>
        match ReadBody(rest)
        case None => None
        case Some((t, after)) => Some(([c] + t, after))
  }

  /** How many digits a text begins with. */
  function DigitRun(s: string): (k: nat)
    ensures k <= |s|
  {
    if s == "" || !IsDigit(s[0]) then 0 else 1 + DigitRun(s[1..])
  }

  /** The number a run of digits stands for, in base ten, the first digit weighing most. */
  function NumberOf(digits: string): int {
    if digits == "" then 0
    else 10 * NumberOf(digits[..|digits| - 1]) + (digits[|digits| - 1] as int - '0' as int)
  }

  /** An integer: a minus sign or none, and digits of which the first is no zero unless it is the
      only one. */
  function ReadInt(s: string): (r: Option<(int, string)>)
    ensures r.Some? ==> |r.value.1| < |s|
  {
    var minus := s != "" && s[0] == '-';
    var t := if minus then s[1..] else s;
    var k := DigitRun(t);
    if k == 0 || (k > 1 && t[0] == '0') then None
    else Some((if minus then -NumberOf(t[..k]) else NumberOf(t[..k]), t[k..]))
  }

  function ReadValue(s: string): (r: Option<(Value, string)>)
    ensures r.Some? ==> |r.value.1| < |s|
  {
    if "null" <= s then Some((Null, s[4..]))
    else if s != "" && s[0] == '"' then
      match ReadBody(s[1..]) case None => None case Some((t, rest)) => Some((Text(t), rest))
    else
      match ReadInt(s) case None => None case Some((n, rest)) => Some((Int(n), rest))
  }

  /** The values of a list from one on, up to its closing bracket, and what follows that. */
  function ReadElements(s: string): Option<(seq<Value>, string)>
    decreases |s|
  {
    match ReadValue(s)
    case None => None
    case Some((v, rest)) =>
      if rest != "" && rest[0] == ']' then Some(([v], rest[1..]))
      else if rest != "" && rest[0] == ',' then
        match ReadElements(rest[1..]) case None => None case Some((vs, after)) => Some(([v] + vs, after))
      else None
  }

  function ReadList(s: string): Option<(seq<Value>, string)> {
    if "[]" <= s then Some(([], s[2..]))
    else if s != "" && s[0] == '[' then ReadElements(s[1..])
    else None
  }

  // -------------------------------------------------- what was written comes back

  lemma EscapeUnfold(s: string, p: string)
    requires s != ""
    ensures Escape(s) + "\"" + p == EscapeChar(s[0]) + (Escape(s[1..]) + "\"" + p)
  {
    var c, e := EscapeChar(s[0]), Escape(s[1..]);
    Strings.Associative(c + e, "\"", p);
    Strings.Associative(c, e, "\"" + p);
    Strings.Associative(e, "\"", p);
  }

  lemma ReadCharBack(c: char, p: string)
    ensures ReadChar(EscapeChar(c) + p) == Some((c, p))
    ensures (EscapeChar(c) + p)[0] != '"'
  {
    var x := EscapeChar(c);
    var s := x + p;
    assert s[|x|..] == p && s[0] == x[0];
    if |x| == 6 {
      ReadControlBack(c, p);
    } else if |x| == 2 {
      assert s[1] == x[1];
    }
  }

  lemma ReadControlBack(c: char, p: string)
    requires |EscapeChar(c)| == 6
    ensures ReadChar(EscapeChar(c) + p) == Some((c, p))
  {
    hide ReadCode, HexDigit;
    var x := EscapeChar(c);
    var s := x + p;
    assert s[0] == x[0] && s[1] == x[1] && s[2..6] == x[2..6] && s[6..] == p;
    ControlCode(c);
  }

  lemma ControlCode(c: char)
    requires |EscapeChar(c)| == 6
    ensures ReadCode(EscapeChar(c)[2..6]) == Some(c)
  {
    HexValueBack(c as int / 16);
    HexValueBack(c as int % 16);
  }

  /** A character stands as it is unless it has to be escaped, the escape is the short one where
      there is one, and otherwise four hexadecimal digits without capitals. As it reads back, that
      leaves one way to write each character. */
  lemma EscapeIsShortest(c: char)
    ensures var n, x := c as int, EscapeChar(c);
            && |x| == (if c == '"' || c == '\\' || 8 <= n <= 10 || 12 <= n <= 13 then 2 else if n < 32 then 6 else 1)
            && (|x| == 6 ==> forall i :: 2 <= i < 6 ==> '0' <= x[i] <= '9' || 'a' <= x[i] <= 'f')
  {
    if c as int < 32 {
      HexValueBack(c as int / 16);
      HexValueBack(c as int % 16);
    }
  }

  lemma HexValueBack(d: int)
    requires 0 <= d < 16
    ensures HexValue(HexDigit(d)) == Some(d)
    ensures '0' <= HexDigit(d) <= '9' || 'a' <= HexDigit(d) <= 'f'
  {
  }

  lemma {:induction false} ReadBodyBack(t: string, p: string)
    ensures ReadBody(Escape(t) + "\"" + p) == Some((t, p))
  {
    hide EscapeChar, ReadChar;
    if t == "" {
      assert Escape(t) + "\"" + p == "\"" + p;
      assert ("\"" + p)[1..] == p;
    } else {
      EscapeUnfold(t, p);
      ReadCharBack(t[0], Escape(t[1..]) + "\"" + p);
      ReadBodyBack(t[1..], p);
      assert t == [t[0]] + t[1..];
    }
  }

  lemma QuoteUnfold(s: string, p: string)
    ensures Quote(s) + p == "\"" + (Escape(s) + "\"" + p)
  {
    Strings.Associative("\"" + Escape(s), "\"", p);
    Strings.Associative("\"", Escape(s), "\"" + p);
    Strings.Associative(Escape(s), "\"", p);
  }

  /** No value ends its own string early. */
  lemma QuotePrefixFree(s: string, t: string, p: string, q: string)
    requires Quote(s) + p == Quote(t) + q
    ensures s == t && p == q
  {
    hide Quote, ReadBody;
    QuoteUnfold(s, p);
    QuoteUnfold(t, q);
    assert (Quote(s) + p)[1..] == Escape(s) + "\"" + p && (Quote(t) + q)[1..] == Escape(t) + "\"" + q;
    ReadBodyBack(s, p);
    ReadBodyBack(t, q);
  }

  lemma {:induction false} DigitsAreDecimal(n: nat)
    ensures Digits(n) != "" && forall i :: 0 <= i < |Digits(n)| ==> IsDigit(Digits(n)[i])
    ensures NumberOf(Digits(n)) == n
    ensures Digits(n)[0] == '0' <==> n == 0
    ensures n < 10 ==> |Digits(n)| == 1
  {
    if n >= 10 {
      DigitsAreDecimal(n / 10);
      assert Digits(n)[..|Digits(n)| - 1] == Digits(n / 10);
    } else {
      assert Digits(n)[..0] == "";
    }
  }

  /** What may follow an integer: anything but a further digit. */
  predicate EndsRun(p: string) {
    p == "" || !IsDigit(p[0])
  }

  lemma {:induction false} DigitRunOf(x: string, p: string)
    requires EndsRun(p) && forall i :: 0 <= i < |x| ==> IsDigit(x[i])
    ensures DigitRun(x + p) == |x|
  {
    if x == "" {
      assert x + p == p;
    } else {
      assert (x + p)[1..] == x[1..] + p;
      DigitRunOf(x[1..], p);
    }
  }

  /** The digits of a number and what follows them, taken apart again. */
  lemma DigitsTakenApart(m: nat, p: string)
    requires EndsRun(p)
    ensures var t, k := Digits(m) + p, |Digits(m)|;
            && k > 0 && DigitRun(t) == k && NumberOf(t[..k]) == m && t[k..] == p
            && IsDigit(t[0]) && (k > 1 ==> t[0] != '0')
  {
    hide Digits, NumberOf, DigitRun;
    var x := Digits(m);
    DigitsAreDecimal(m);
    DigitRunOf(x, p);
    assert (x + p)[..|x|] == x && (x + p)[|x|..] == p && (x + p)[0] == x[0];
  }

  lemma ReadIntBack(n: int, p: string)
    requires EndsRun(p)
    ensures ReadInt(IntText(n) + p) == Some((n, p))
    ensures (IntText(n) + p)[0] == '-' || IsDigit((IntText(n) + p)[0])
  {
    hide Digits, NumberOf, DigitRun;
    if n < 0 {
      DigitsTakenApart(-n, p);
      assert IntText(n) + p == "-" + (Digits(-n) + p) by { Strings.Associative("-", Digits(-n), p); }
      assert (IntText(n) + p)[1..] == Digits(-n) + p && (IntText(n) + p)[0] == '-';
    } else {
      DigitsTakenApart(n, p);
    }
  }

  lemma ReadValueBack(v: Value, p: string)
    requires EndsRun(p)
    ensures ReadValue(ValueText(v) + p) == Some((v, p))
    ensures (ValueText(v) + p)[0] != ']'
  {
    hide Quote, Escape, ReadBody, ReadInt, IntText;
    var s := ValueText(v) + p;
    match v
    case Null =>
      assert s[..4] == "null" && s[4..] == p;
    case Int(n) =>
      ReadIntBack(n, p);
      assert s[0] != 'n' && s[0] != '"';
      NotNull(s);
    case Text(t) =>
      QuoteUnfold(t, p);
      ReadBodyBack(t, p);
      assert s[0] == '"' && s[1..] == Escape(t) + "\"" + p;
      NotNull(s);
  }

  lemma NotNull(s: string)
    requires s != "" && s[0] != 'n'
    ensures !("null" <= s)
  {
    assert "null"[0] == 'n';
  }

  lemma {:induction false} ReadElementsBack(vs: seq<Value>, p: string)
    requires vs != []
    ensures ReadElements(Elements(vs) + p) == Some((vs, p))
    ensures Elements(vs) + p != "" && (Elements(vs) + p)[0] != ']'
  {
    hide ValueText, ReadValue;
    var tail := if |vs| == 1 then "]" else "," + Elements(vs[1..]);
    Strings.Associative(ValueText(vs[0]), tail, p);
    ReadValueBack(vs[0], tail + p);
    if |vs| == 1 {
      assert (tail + p)[1..] == p && vs == [vs[0]];
    } else {
      assert (tail + p)[1..] == Elements(vs[1..]) + p;
      ReadElementsBack(vs[1..], p);
      assert vs == [vs[0]] + vs[1..];
    }
  }

  /** The canonical text reads back as the values it was written from, whatever follows it. */
  lemma ListReadsBack(vs: seq<Value>, p: string)
    ensures ReadList(Encode(vs) + p) == Some((vs, p))
  {
    hide Elements, ReadElements;
    var s := Encode(vs) + p;
    if vs == [] {
      assert s[..2] == "[]" && s[2..] == p;
    } else {
      ReadElementsBack(vs, p);
      assert s[1..] == Elements(vs) + p && s[1] == s[1..][0];
      NotEmptyList(s);
    }
  }

  lemma NotEmptyList(s: string)
    requires |s| > 1 && s[1] != ']'
    ensures !("[]" <= s)
  {
    assert "[]"[1] == ']';
  }

  /** Two rows with one text, and anything behind it, are one row: the form is injective, and no
      text of a row is the beginning of another. */
  lemma EncodePrefixFree(vs: seq<Value>, ws: seq<Value>, p: string, q: string)
    requires Encode(vs) + p == Encode(ws) + q
    ensures vs == ws && p == q
  {
    hide Encode, ReadList;
    ListReadsBack(vs, p);
    ListReadsBack(ws, q);
  }
}
