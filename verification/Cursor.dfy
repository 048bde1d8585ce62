/** The continuation handle: base64url without padding (RFC 4648, sections 3.2, 4 and 5). */
module Cursor {
  import opened Basics
  import opened Text

  const MAX_CURSOR_CHARS := 512

  type Byte = b: int | 0 <= b < 256

  type Sextet = x: int | 0 <= x < 64

  function Digit(x: Sextet): (c: char)
    ensures c != '='
  {
    if x < 26 then 'A' + x as char
    else if x < 52 then 'a' + (x - 26) as char
    else if x < 62 then '0' + (x - 52) as char
    else if x == 62 then '-' else '_'
  }

  /** What a character stands for; the two signs of the plain alphabet are read as well. */
  function DigitValue(c: char): (v: Option<Sextet>)
    ensures c == '=' ==> v.None?
  {
    if 'A' <= c <= 'Z' then Some(c as int - 'A' as int)
    else if 'a' <= c <= 'z' then Some(c as int - 'a' as int + 26)
    else if '0' <= c <= '9' then Some(c as int - '0' as int + 52)
    else if c == '-' || c == '+' then Some(62)
    else if c == '_' || c == '/' then Some(63)
    else None
  }

  lemma DigitRoundTrip(x: Sextet)
    ensures DigitValue(Digit(x)) == Some(x) && Digit(x) != '+' && Digit(x) != '/'
  {
  }

  // -------------------------------------------------------------- encoding

  // Three bytes x, y, z are the four sextets First(x), Second(x, y), Third(y, z), Fourth(z).

  function First(x: Byte): Sextet { x / 4 }

  function Second(x: Byte, y: Byte): Sextet { (x % 4) * 16 + y / 16 }

  function Third(y: Byte, z: Byte): Sextet { (y % 16) * 4 + z / 64 }

  function Fourth(z: Byte): Sextet { z % 64 }

  // Four sextets a, b, c, d are the three bytes Front(a, b), Middle(b, c), Back(c, d).

  function Front(a: Sextet, b: Sextet): Byte {
    var x: int := a * 4;
    x + b / 16
  }

  function Middle(b: Sextet, c: Sextet): Byte {
    var y: int := (b % 16) * 16;
    y + c / 4
  }

  function Back(c: Sextet, d: Sextet): Byte {
    var z: int := (c % 4) * 64;
    z + d
  }

  lemma BytesBack(x: Byte, y: Byte, z: Byte)
    ensures Front(First(x), Second(x, y)) == x
    ensures Middle(Second(x, y), Third(y, z)) == y
    ensures Back(Third(y, z), Fourth(z)) == z
  {
  }

  lemma SextetsBack(a: Sextet, b: Sextet, c: Sextet, d: Sextet)
    ensures First(Front(a, b)) == a
    ensures Second(Front(a, b), Middle(b, c)) == b
    ensures Third(Middle(b, c), Back(c, d)) == c
    ensures Fourth(Back(c, d)) == d
    ensures Second(Front(a, b), 0) == b / 16 * 16
    ensures Third(Middle(b, c), 0) == c / 4 * 4
  {
  }

  /** base64.urlsafe_b64encode: groups of three bytes, the last one padded. */
  function EncodePadded(bs: seq<Byte>): string {
    if |bs| == 0 then ""
    else if |bs| == 1 then [Digit(First(bs[0])), Digit(Second(bs[0], 0)), '=', '=']
    else if |bs| == 2 then
      [Digit(First(bs[0])), Digit(Second(bs[0], bs[1])), Digit(Third(bs[1], 0)), '=']
    else Group(bs[0], bs[1], bs[2]) + EncodePadded(bs[3..])
  }

  function Group(x: Byte, y: Byte, z: Byte): (g: string)
    ensures |g| == 4
  {
    [Digit(First(x)), Digit(Second(x, y)), Digit(Third(y, z)), Digit(Fourth(z))]
  }

  /** rstrip("=") */
  function Unpadded(s: string): string {
    if s != "" && s[|s| - 1] == '=' then Unpadded(s[..|s| - 1]) else s
  }

  function EncodeCursor(bs: seq<Byte>): string {
    Unpadded(EncodePadded(bs))
  }

  // -------------------------------------------------------------- decoding

  function Equals(n: nat): (s: string)
    ensures |s| == n
    ensures n == 1 ==> s == "="
    ensures n == 2 ==> s == "=="
  {
    if n == 0 then "" else Equals(n - 1) + "="
  }

  /** -n % 4 */
  function PadCount(n: nat): (p: nat)
    ensures p < 4 && (n + p) % 4 == 0
    ensures n >= 4 ==> p == (4 - n) % 4
  {
    (0 - n) % 4
  }

  /** raw + "=" * (-len(raw) % 4) */
  function Padded(raw: string): string {
    raw + Equals(PadCount(|raw|))
  }

  /** base64.b64decode with validation: groups of four, padding only at the very end. */
  function DecodePadded(s: string): Option<seq<Byte>> {
    if |s| == 0 then Some([])
    else if |s| < 4 || DigitValue(s[0]).None? || DigitValue(s[1]).None? then None
    else
      var a, b := Value(s[0]), Value(s[1]);
      if |s| == 4 && s[2] == '=' && s[3] == '=' then Some([Front(a, b)])
      else if DigitValue(s[2]).None? then None
      else
        var c := Value(s[2]);
        if |s| == 4 && s[3] == '=' then Some([Front(a, b), Middle(b, c)])
        else if DigitValue(s[3]).None? then None
        else
          match DecodePadded(s[4..])
          case None => None
          case Some(rest) => Some([Front(a, b), Middle(b, c), Back(c, Value(s[3]))] + rest)
  }

  function Value(c: char): Sextet {
    Get(DigitValue(c), 0)
  }

  datatype Refusal = Empty | TooLong | NotBase64 | NotAState

  datatype Decoded = Bytes(bs: seq<Byte>) | Refused(why: Refusal)

  function DecodeCursor(cursor: string): Decoded {
    var raw := Strip(cursor);
    if raw == "" then Refused(Empty)
    else if |raw| > MAX_CURSOR_CHARS then Refused(TooLong)
    else match DecodePadded(Padded(raw))
         case None => Refused(NotBase64)
         case Some(bs) => Bytes(bs)
  }

  // ------------------------------------------------------------ round trip

  lemma {:induction false} DecodeEncodePadded(bs: seq<Byte>)
    ensures DecodePadded(EncodePadded(bs)) == Some(bs)
  {
    hide Digit, DigitValue, First, Second, Third, Fourth, Front, Middle, Back;
    forall x: Sextet ensures DigitValue(Digit(x)) == Some(x) { DigitRoundTrip(x); }
    if |bs| == 1 {
      BytesBack(bs[0], 0, 0);
      assert bs == [bs[0]];
    } else if |bs| == 2 {
      BytesBack(bs[0], bs[1], 0);
      assert bs == [bs[0], bs[1]];
    } else if |bs| >= 3 {
      var g, rest := Group(bs[0], bs[1], bs[2]), EncodePadded(bs[3..]);
      BytesBack(bs[0], bs[1], bs[2]);
      DecodeEncodePadded(bs[3..]);
      DecodeGroup(g, rest);
      assert bs == [bs[0], bs[1], bs[2]] + bs[3..];
    }
  }

  lemma DecodeGroup(g: string, rest: string)
    requires |g| == 4 && forall i :: 0 <= i < 4 ==> DigitValue(g[i]).Some?
    requires DecodePadded(rest).Some?
    ensures DecodePadded(g + rest)
            == Some([Front(Value(g[0]), Value(g[1])), Middle(Value(g[1]), Value(g[2])), Back(Value(g[2]), Value(g[3]))]
                    + DecodePadded(rest).value)
  {
    hide DigitValue, Front, Middle, Back;
    assert (g + rest)[4..] == rest;
    NoDigit();
  }

  lemma NoDigit()
    ensures DigitValue('=').None?
  {
  }

  /** How many characters carry data. */
  function DataChars(n: nat): nat {
    n / 3 * 4 + if n % 3 == 0 then 0 else n % 3 + 1
  }

  /** Characters of the url-safe alphabet only. */
  predicate UrlSafe(s: string) {
    forall i :: 0 <= i < |s| ==> DigitValue(s[i]).Some? && s[i] != '+' && s[i] != '/'
  }

  lemma SafeIsPlain(s: string)
    requires UrlSafe(s)
    ensures Trimmed(s) && forall i :: 0 <= i < |s| ==> s[i] != '='
  {
  }

  lemma DigitIsSafe(x: Sextet)
    ensures UrlSafe([Digit(x)])
  {
    DigitRoundTrip(x);
  }

  lemma SafeConcat(s: string, t: string)
    requires UrlSafe(s) && UrlSafe(t)
    ensures UrlSafe(s + t)
  {
    hide DigitValue;
  }

  lemma GroupIsSafe(x: Byte, y: Byte, z: Byte)
    ensures UrlSafe(Group(x, y, z))
  {
    hide Digit, DigitValue, First, Second, Third, Fourth;
    DigitIsSafe(First(x));
    DigitIsSafe(Second(x, y));
    DigitIsSafe(Third(y, z));
    DigitIsSafe(Fourth(z));
    assert forall d: Sextet :: [Digit(d)][0] == Digit(d);
  }

  /** The padded form is data characters, none of which is a padding sign, and then padding. */
  lemma {:induction false} PaddedShape(bs: seq<Byte>) returns (data: string)
    ensures EncodePadded(bs) == Padded(data)
    ensures |data| == DataChars(|bs|)
    ensures UrlSafe(data)
  {
    hide Digit, UrlSafe, Padded, Group;
    if |bs| < 3 {
      data := ShortShape(bs);
    } else {
      var rest := PaddedShape(bs[3..]);
      var g := Group(bs[0], bs[1], bs[2]);
      data := g + rest;
      GroupIsSafe(bs[0], bs[1], bs[2]);
      SafeConcat(g, rest);
      PaddedGroup(data);
      assert data[..4] == g && data[4..] == rest;
    }
  }

  lemma ShortShape(bs: seq<Byte>) returns (data: string)
    requires |bs| < 3
    ensures EncodePadded(bs) == Padded(data) && |data| == DataChars(|bs|) && UrlSafe(data)
  {
    hide Digit, DigitValue, First, Second, Third;
    if |bs| == 0 {
      data := "";
    } else {
      var a := Digit(First(bs[0]));
      DigitIsSafe(First(bs[0]));
      assert [a][0] == a;
      if |bs| == 1 {
        var b := Digit(Second(bs[0], 0));
        DigitIsSafe(Second(bs[0], 0));
        assert [b][0] == b;
        data := [a, b];
        assert Padded(data) == [a, b, '=', '='];
      } else {
        var b, c := Digit(Second(bs[0], bs[1])), Digit(Third(bs[1], 0));
        DigitIsSafe(Second(bs[0], bs[1]));
        DigitIsSafe(Third(bs[1], 0));
        assert [b][0] == b && [c][0] == c;
        data := [a, b, c];
        assert Padded(data) == [a, b, c, '='];
      }
    }
  }

  lemma PaddedGroup(s: string)
    requires |s| >= 4
    ensures Padded(s) == s[..4] + Padded(s[4..])
  {
    assert s == s[..4] + s[4..];
  }

  lemma {:induction false} UnpaddedShape(data: string, n: nat)
    requires forall i :: 0 <= i < |data| ==> data[i] != '='
    ensures Unpadded(data + Equals(n)) == data
  {
    if n == 0 {
      assert data + Equals(n) == data;
    } else {
      assert (data + Equals(n))[..|data + Equals(n)| - 1] == data + Equals(n - 1);
      UnpaddedShape(data, n - 1);
    }
  }

  /** Stripping the padding loses nothing: padding the handle up again and decoding it gives
      the same bytes back. The length is never one more than a multiple of four. */
  lemma CursorRoundTrip(bs: seq<Byte>)
    ensures DecodePadded(Padded(EncodeCursor(bs))) == Some(bs)
    ensures |EncodeCursor(bs)| == DataChars(|bs|) && |EncodeCursor(bs)| % 4 != 1
    ensures Trimmed(EncodeCursor(bs))
  {
    hide EncodePadded, DecodePadded, Unpadded, DigitValue, Trimmed;
    var data := PaddedShape(bs);
    SafeIsPlain(data);
    UnpaddedShape(data, PadCount(|data|));
    DecodeEncodePadded(bs);
  }

  /** The ceiling of 512 characters admits exactly 384 bytes. */
  lemma CeilingInBytes(n: nat)
    ensures DataChars(n) <= MAX_CURSOR_CHARS <==> n <= 384
    ensures DataChars(n) == 0 <==> n == 0
  {
  }

  /** The bytes of a handle of this server are read back exactly when there are any and at most
      384; the ceiling refuses every longer handle. */
  lemma BytesReadBack(bs: seq<Byte>)
    ensures DecodeCursor(EncodeCursor(bs))
            == if bs == [] then Refused(Empty) else if |bs| > 384 then Refused(TooLong) else Bytes(bs)
  {
    hide EncodeCursor, DecodePadded, Padded, DataChars, Strip, Trimmed;
    CursorRoundTrip(bs);
    CeilingInBytes(|bs|);
    StripTrimmed(EncodeCursor(bs));
  }

  // ------------------------------------------------- what a handle stands for

  /** The table of the url-safe alphabet (RFC 4648, section 5). */
  function Alphabet(x: Sextet): char {
    match x
    case 0 => 'A' case 1 => 'B' case 2 => 'C' case 3 => 'D' case 4 => 'E' case 5 => 'F' case 6 => 'G'
    case 7 => 'H' case 8 => 'I' case 9 => 'J' case 10 => 'K' case 11 => 'L' case 12 => 'M' case 13 => 'N'
    case 14 => 'O' case 15 => 'P' case 16 => 'Q' case 17 => 'R' case 18 => 'S' case 19 => 'T' case 20 => 'U'
    case 21 => 'V' case 22 => 'W' case 23 => 'X' case 24 => 'Y' case 25 => 'Z' case 26 => 'a' case 27 => 'b'
    case 28 => 'c' case 29 => 'd' case 30 => 'e' case 31 => 'f' case 32 => 'g' case 33 => 'h' case 34 => 'i'
    case 35 => 'j' case 36 => 'k' case 37 => 'l' case 38 => 'm' case 39 => 'n' case 40 => 'o' case 41 => 'p'
    case 42 => 'q' case 43 => 'r' case 44 => 's' case 45 => 't' case 46 => 'u' case 47 => 'v' case 48 => 'w'
    case 49 => 'x' case 50 => 'y' case 51 => 'z' case 52 => '0' case 53 => '1' case 54 => '2' case 55 => '3'
    case 56 => '4' case 57 => '5' case 58 => '6' case 59 => '7' case 60 => '8' case 61 => '9' case 62 => '-'
    case _ => '_'
  }

  lemma DigitsAreTheTable(x: Sextet)
    ensures Digit(x) == Alphabet(x)
  {
  }

  /** The characters as digits of one number in base 64, behind a number in front of them. */
  function InBase64(front: int, s: string): int
    decreases |s|
  {
    if s == "" then front else InBase64(64 * front + Value(s[0]), s[1..])
  }

  function InBase256(front: int, bs: seq<Byte>): int
    decreases |bs|
  {
    if bs == [] then front else InBase256(256 * front + bs[0], bs[1..])
  }

  /** The zero bits behind the last byte that fill up its last character. */
  function FillBits(n: nat): int {
    if n % 3 == 0 then 1 else if n % 3 == 1 then 16 else 4
  }

  lemma CursorUnfold(bs: seq<Byte>)
    requires |bs| >= 3
    ensures EncodeCursor(bs) == Group(bs[0], bs[1], bs[2]) + EncodeCursor(bs[3..])
  {
    hide Digit, DigitValue, Group, Unpadded;
    var g := Group(bs[0], bs[1], bs[2]);
    var data := PaddedShape(bs[3..]);
    var all := PaddedShape(bs);
    SafeIsPlain(data);
    SafeIsPlain(all);
    UnpaddedShape(data, PadCount(|data|));
    UnpaddedShape(all, PadCount(|all|));
    PaddedGroup(g + data);
    assert (g + data)[..4] == g && (g + data)[4..] == data;
    assert Padded(all) == Padded(g + data) && |all| == |g + data|;
    assert all == Padded(all)[..|all|] == Padded(g + data)[..|all|] == g + data;
  }

  lemma OneDigit(front: int, x: Sextet, rest: string)
    ensures InBase64(front, [Digit(x)] + rest) == InBase64(64 * front + x, rest)
  {
    hide Digit, DigitValue;
    DigitRoundTrip(x);
    assert ([Digit(x)] + rest)[1..] == rest;
  }

  lemma OneByte(front: int, x: Byte, rest: seq<Byte>)
    ensures InBase256(front, [x] + rest) == InBase256(256 * front + x, rest)
  {
    assert ([x] + rest)[1..] == rest;
  }

  lemma FourDigits(front: int, x: Byte, y: Byte, z: Byte, rest: string)
    ensures InBase64(front, Group(x, y, z) + rest) == InBase64(((front * 256 + x) * 256 + y) * 256 + z, rest)
  {
    hide Digit, DigitValue, InBase64;
    var a, b, c, d := First(x), Second(x, y), Third(y, z), Fourth(z);
    assert Group(x, y, z) + rest == [Digit(a)] + ([Digit(b)] + ([Digit(c)] + ([Digit(d)] + rest)));
    OneDigit(front, a, [Digit(b)] + ([Digit(c)] + ([Digit(d)] + rest)));
    OneDigit(64 * front + a, b, [Digit(c)] + ([Digit(d)] + rest));
    OneDigit(64 * (64 * front + a) + b, c, [Digit(d)] + rest);
    OneDigit(64 * (64 * (64 * front + a) + b) + c, d, rest);
  }

  lemma ThreeBytes(front: int, bs: seq<Byte>)
    requires |bs| >= 3
    ensures InBase256(front, bs) == InBase256(((front * 256 + bs[0]) * 256 + bs[1]) * 256 + bs[2], bs[3..])
  {
    hide InBase256;
    assert bs == [bs[0]] + ([bs[1]] + ([bs[2]] + bs[3..]));
    OneByte(front, bs[0], [bs[1]] + ([bs[2]] + bs[3..]));
    OneByte(256 * front + bs[0], bs[1], [bs[2]] + bs[3..]);
    OneByte(256 * (256 * front + bs[0]) + bs[1], bs[2], bs[3..]);
  }

  lemma OfOne(front: int, x: Byte)
    ensures EncodeCursor([x]) == [Digit(First(x)), Digit(Second(x, 0))]
    ensures InBase64(front, EncodeCursor([x])) == InBase256(front, [x]) * 16
  {
    hide Digit, DigitValue, InBase64, InBase256, Unpadded, First, Second;
    var a, b := First(x), Second(x, 0);
    UnpaddedShape([Digit(a), Digit(b)], 2);
    assert EncodePadded([x]) == [Digit(a), Digit(b)] + Equals(2);
    assert [Digit(a), Digit(b)] == [Digit(a)] + ([Digit(b)] + "") && [x] == [x] + [];
    OneDigit(front, a, [Digit(b)] + "");
    OneDigit(64 * front + a, b, "");
    OneByte(front, x, []);
    NoNumber(64 * (64 * front + a) + b);
    NoNumber(256 * front + x);
    TwelveBits(front, x);
  }

  lemma TwelveBits(front: int, x: Byte)
    ensures 64 * (64 * front + First(x)) + Second(x, 0) == (256 * front + x) * 16
  {
  }

  lemma OfTwo(front: int, x: Byte, y: Byte)
    ensures EncodeCursor([x, y]) == [Digit(First(x)), Digit(Second(x, y)), Digit(Third(y, 0))]
    ensures InBase64(front, EncodeCursor([x, y])) == InBase256(front, [x, y]) * 4
  {
    hide Digit, DigitValue, InBase64, InBase256, Unpadded, First, Second, Third;
    var a, b, c := First(x), Second(x, y), Third(y, 0);
    UnpaddedShape([Digit(a), Digit(b), Digit(c)], 1);
    assert EncodePadded([x, y]) == [Digit(a), Digit(b), Digit(c)] + Equals(1);
    assert [Digit(a), Digit(b), Digit(c)] == [Digit(a)] + ([Digit(b)] + ([Digit(c)] + ""));
    assert [x, y] == [x] + ([y] + []);
    OneDigit(front, a, [Digit(b)] + ([Digit(c)] + ""));
    OneDigit(64 * front + a, b, [Digit(c)] + "");
    OneDigit(64 * (64 * front + a) + b, c, "");
    OneByte(front, x, [y] + []);
    OneByte(256 * front + x, y, []);
    NoNumber(64 * (64 * (64 * front + a) + b) + c);
    NoNumber(256 * (256 * front + x) + y);
    EighteenBits(front, x, y);
  }

  lemma EighteenBits(front: int, x: Byte, y: Byte)
    ensures 64 * (64 * (64 * front + First(x)) + Second(x, y)) + Third(y, 0) == (256 * (256 * front + x) + y) * 4
  {
  }

  /** A handle is the number its bytes are, written in base 64 with that alphabet, and of that
      length; which says of every state what its handle is. */
  lemma {:induction false} HandleIsTheNumber(front: int, bs: seq<Byte>)
    ensures InBase64(front, EncodeCursor(bs)) == InBase256(front, bs) * FillBits(|bs|)
    decreases |bs|
  {
    hide EncodeCursor, Group, DigitValue, InBase64, InBase256, FillBits;
    if |bs| >= 3 {
      var next := ((front * 256 + bs[0]) * 256 + bs[1]) * 256 + bs[2];
      CursorUnfold(bs);
      FourDigits(front, bs[0], bs[1], bs[2], EncodeCursor(bs[3..]));
      ThreeBytes(front, bs);
      HandleIsTheNumber(next, bs[3..]);
      SameFill(|bs|);
    } else if |bs| == 2 {
      assert bs == [bs[0], bs[1]];
      OfTwo(front, bs[0], bs[1]);
      SameFill(2);
    } else if |bs| == 1 {
      assert bs == [bs[0]];
      OfOne(front, bs[0]);
      SameFill(1);
    } else {
      NoHandle();
      NoNumber(front);
      SameFill(0);
    }
  }

  lemma NoHandle()
    ensures EncodeCursor([]) == ""
  {
  }

  lemma SameFill(n: nat)
    ensures n >= 3 ==> FillBits(n) == FillBits(n - 3)
    ensures FillBits(0) == 1 && FillBits(1) == 16 && FillBits(2) == 4
  {
  }

  lemma NoNumber(front: int)
    ensures InBase64(front, "") == InBase256(front, []) == front
  {
  }

  // -------------------------------------------------- which texts are accepted

  predicate IsData(s: string) {
    forall i :: 0 <= i < |s| ==> DigitValue(s[i]).Some?
  }

  /** The padding a text of so many characters may carry: none behind whole groups, and up to what
      is missing behind two or three characters more. */
  predicate PaddingFits(n: nat, p: nat) {
    match n % 4
    case 0 => p == 0
    case 2 => p <= 2
    case 3 => p <= 1
    case _ => false
  }

  /** The same characters in the url-safe alphabet. */
  function InAlphabet(s: string): (t: string)
    ensures |t| == |s|
  {
    seq(|s|, i requires 0 <= i < |s| => Digit(Value(s[i])))
  }

  lemma {:induction false} AcceptsData(d: string, p: nat)
    requires IsData(d) && PaddingFits(|d|, p)
    ensures DecodePadded(Padded(d + Equals(p))).Some?
    ensures DecodePadded(Padded(d + Equals(p))) == DecodePadded(Padded(InAlphabet(d)))
  {
    hide Digit, DigitValue, Front, Middle, Back, Padded;
    NoDigit();
    forall x: Sextet ensures DigitValue(Digit(x)) == Some(x) { DigitRoundTrip(x); }
    var t := InAlphabet(d);
    if |d| >= 4 {
      AcceptsData(d[4..], p);
      assert (d + Equals(p))[..4] == d[..4] && (d + Equals(p))[4..] == d[4..] + Equals(p);
      assert t[4..] == InAlphabet(d[4..]);
      PaddedGroup(d + Equals(p));
      PaddedGroup(t);
      DecodeGroup(d[..4], Padded(d[4..] + Equals(p)));
      DecodeGroup(t[..4], Padded(t[4..]));
    } else {
      AcceptsShort(d, p);
    }
  }

  lemma AcceptsShort(d: string, p: nat)
    requires IsData(d) && PaddingFits(|d|, p) && |d| < 4
    ensures DecodePadded(Padded(d + Equals(p))).Some?
    ensures DecodePadded(Padded(d + Equals(p))) == DecodePadded(Padded(InAlphabet(d)))
  {
    hide Digit, DigitValue, DecodePadded, Padded;
    forall x: Sextet ensures DigitValue(Digit(x)) == Some(x) { DigitRoundTrip(x); }
    var t := InAlphabet(d);
    if |d| == 2 {
      assert d == [d[0], d[1]] && t == [t[0], t[1]];
      TwoAndPadding(d[0], d[1], p);
      TwoAndPadding(t[0], t[1], 0);
      assert t + Equals(0) == t;
    } else if |d| == 3 {
      assert d == [d[0], d[1], d[2]] && t == [t[0], t[1], t[2]];
      ThreeAndPadding(d[0], d[1], d[2], p);
      ThreeAndPadding(t[0], t[1], t[2], 0);
      assert t + Equals(0) == t;
    } else {
      assert d == "" && t == "" && d + Equals(0) == "";
      NothingDecoded();
    }
  }

  lemma NothingDecoded()
    ensures DecodePadded(Padded("")) == Some([])
  {
  }

  lemma DecodeTwo(a: char, b: char)
    requires DigitValue(a).Some? && DigitValue(b).Some?
    ensures DecodePadded([a, b, '=', '=']) == Some([Front(Value(a), Value(b))])
  {
    hide DigitValue, Front;
  }

  lemma DecodeThree(a: char, b: char, c: char)
    requires DigitValue(a).Some? && DigitValue(b).Some? && DigitValue(c).Some?
    ensures DecodePadded([a, b, c, '=']) == Some([Front(Value(a), Value(b)), Middle(Value(b), Value(c))])
  {
    hide DigitValue, Front, Middle;
    NoDigit();
  }

  lemma PaddedUp(s: string, p: nat)
    requires |s| + p <= 4 && 2 <= |s| <= 3
    ensures Padded(s + Equals(p)) == if |s| == 2 then [s[0], s[1], '=', '='] else [s[0], s[1], s[2], '=']
  {
    assert Equals(0) == "" && Equals(1) == "=" && Equals(2) == "==";
    assert p == 0 || p == 1 || p == 2;
  }

  lemma TwoAndPadding(a: char, b: char, p: nat)
    requires DigitValue(a).Some? && DigitValue(b).Some? && p <= 2
    ensures DecodePadded(Padded([a, b] + Equals(p))) == Some([Front(Value(a), Value(b))])
  {
    hide DigitValue, Front, DecodePadded, Padded;
    PaddedUp([a, b], p);
    DecodeTwo(a, b);
  }

  lemma ThreeAndPadding(a: char, b: char, c: char, p: nat)
    requires DigitValue(a).Some? && DigitValue(b).Some? && DigitValue(c).Some? && p <= 1
    ensures DecodePadded(Padded([a, b, c] + Equals(p)))
            == Some([Front(Value(a), Value(b)), Middle(Value(b), Value(c))])
  {
    hide DigitValue, Front, Middle, DecodePadded, Padded;
    PaddedUp([a, b, c], p);
    DecodeThree(a, b, c);
  }

  lemma {:induction false} AcceptedIsData(raw: string) returns (d: string, p: nat)
    requires DecodePadded(Padded(raw)).Some?
    ensures raw == d + Equals(p) && IsData(d) && PaddingFits(|d|, p)
  {
    hide DigitValue, Front, Middle, Back, Padded;
    NoDigit();
    if |raw| < 4 {
      d, p := ShortIsData(raw);
    } else {
      PaddedGroup(raw);
      var g, rest := raw[..4], Padded(raw[4..]);
      assert raw == g + raw[4..] && (g + rest)[4..] == rest;
      if IsData(g) {
        if raw[4..] == "" {
          d, p := raw, 0;
          assert Equals(0) == "";
        } else {
          d, p := AcceptedIsData(raw[4..]);
          d := g + d;
        }
      } else {
        PaddedEmpty(raw[4..]);
        d, p := PaddedGroupIsData(raw);
      }
    }
  }

  lemma PaddedEmpty(s: string)
    ensures Padded(s) == "" <==> s == ""
  {
  }

  lemma PaddedGroupIsData(raw: string) returns (d: string, p: nat)
    requires |raw| >= 4 && !IsData(raw[..4]) && DecodePadded(raw[..4] + Padded(raw[4..])).Some?
    ensures raw == d + Equals(p) && IsData(d) && PaddingFits(|d|, p)
  {
    hide DigitValue, Front, Middle, Back, Padded;
    NoDigit();
    PaddedEmpty(raw[4..]);
    var s := raw[..4] + Padded(raw[4..]);
    assert s[0] == raw[0] && s[1] == raw[1] && s[2] == raw[2] && s[3] == raw[3];
    assert |raw| == 4;
    if raw[2] == '=' {
      d, p := raw[..2], 2;
    } else {
      d, p := raw[..3], 1;
    }
  }

  lemma ShortIsData(raw: string) returns (d: string, p: nat)
    requires |raw| < 4 && DecodePadded(Padded(raw)).Some?
    ensures raw == d + Equals(p) && IsData(d) && PaddingFits(|d|, p)
  {
    hide DigitValue, Front, Middle, Back;
    NoDigit();
    if |raw| == 1 {
      PaddedOne(raw);
      assert false;
    }
    d, p := raw, 0;
    if |raw| == 3 && raw[2] == '=' {
      assert Padded(raw) == [raw[0], raw[1], '=', '='];
      d, p := raw[..2], 1;
    } else if |raw| == 3 {
      assert Padded(raw) == [raw[0], raw[1], raw[2], '='];
    } else if |raw| == 2 {
      assert Padded(raw) == [raw[0], raw[1], '=', '='];
    }
  }

  /** The text is data of either alphabet and padding that fits. */
  ghost predicate IsPaddedData(s: string, d: string, p: nat) {
    s == d + Equals(p) && IsData(d) && PaddingFits(|d|, p)
  }

  lemma DecodesWhen(s: string)
    ensures DecodeCursor(s).Bytes? <==> 0 < |Strip(s)| <= 512 && DecodePadded(Padded(Strip(s))).Some?
    ensures DecodeCursor(s).Bytes? ==> Some(DecodeCursor(s).bs) == DecodePadded(Padded(Strip(s)))
  {
    hide DecodePadded, Padded, Strip;
  }

  /** Which texts are accepted: but for white space around it, characters of either alphabet, and
      with the padding that fits behind them at most 512. */
  lemma AcceptedTexts(s: string)
    ensures DecodeCursor(s).Bytes? <==> 0 < |Strip(s)| <= 512 && exists d, p: nat :: IsPaddedData(Strip(s), d, p)
  {
    hide DecodePadded, DecodeCursor, Padded, Strip, IsData, PaddingFits;
    DecodesWhen(s);
    if d, p: nat :| IsPaddedData(Strip(s), d, p) {
      AcceptsData(d, p);
    }
    if DecodePadded(Padded(Strip(s))).Some? {
      var d, p := AcceptedIsData(Strip(s));
      assert IsPaddedData(Strip(s), d, p);
    }
  }

  /** And as what: as the same characters without padding in the url-safe alphabet. */
  lemma AcceptedAs(s: string, d: string, p: nat)
    requires DecodeCursor(s).Bytes? && IsPaddedData(Strip(s), d, p)
    ensures Some(DecodeCursor(s).bs) == DecodePadded(Padded(InAlphabet(d)))
  {
    hide DecodePadded, DecodeCursor, Padded, Strip, IsData, PaddingFits;
    DecodesWhen(s);
    AcceptsData(d, p);
  }

  /** White space around a handle makes no difference. */
  lemma WhiteSpaceAround(a: string, s: string, b: string)
    requires Blank(a) && Blank(b)
    ensures DecodeCursor(a + s + b) == DecodeCursor(s)
  {
    hide Strip, Blank, DecodePadded;
    StripIgnores(a, s, b);
  }

  // --------------------------------------------------- canonical handles

  /** The unused low bits of the last character are zero, as an encoder leaves them. */
  predicate TailClear(s: string) {
    if |s| >= 4 then TailClear(s[4..])
    else if |s| == 2 then Value(s[1]) % 16 == 0
    else if |s| == 3 then Value(s[2]) % 4 == 0
    else true
  }

  /** The handle with those bits cleared. */
  function Cleared(s: string): string {
    if |s| >= 4 then s[..4] + Cleared(s[4..])
    else if |s| == 2 then [s[0], Digit(Value(s[1]) / 16 * 16)]
    else if |s| == 3 then [s[0], s[1], Digit(Value(s[2]) / 4 * 4)]
    else s
  }

  lemma DigitOfValue(c: char)
    requires DigitValue(c).Some? && c != '+' && c != '/'
    ensures Digit(Value(c)) == c
  {
  }

  lemma {:induction false} ClearedIsClear(s: string)
    requires UrlSafe(s)
    ensures Cleared(s) == s <==> TailClear(s)
    ensures |Cleared(s)| == |s| && UrlSafe(Cleared(s))
  {
    if |s| >= 4 {
      ClearedIsClear(s[4..]);
      assert s == s[..4] + s[4..];
    } else if |s| == 2 {
      DigitOfValue(s[1]);
      DigitRoundTrip(Value(s[1]) / 16 * 16);
    } else if |s| == 3 {
      DigitOfValue(s[2]);
      DigitRoundTrip(Value(s[2]) / 4 * 4);
    }
  }

  lemma EncodeDecodeGroup(s: string)
    requires |s| >= 4 && UrlSafe(s) && DecodePadded(Padded(s[4..])).Some?
    requires EncodePadded(DecodePadded(Padded(s[4..])).value) == Padded(Cleared(s[4..]))
    ensures DecodePadded(Padded(s)).Some?
    ensures EncodePadded(DecodePadded(Padded(s)).value) == Padded(Cleared(s))
  {
    hide Digit, DigitValue, First, Second, Third, Fourth, Front, Middle, Back, Padded, DecodePadded;
    var g, rest := s[..4], DecodePadded(Padded(s[4..])).value;
    var x, y, z := Front(Value(s[0]), Value(s[1])), Middle(Value(s[1]), Value(s[2])), Back(Value(s[2]), Value(s[3]));
    PaddedGroup(s);
    DecodeGroup(g, Padded(s[4..]));
    SextetsBack(Value(s[0]), Value(s[1]), Value(s[2]), Value(s[3]));
    forall i | 0 <= i < 4 ensures Digit(Value(s[i])) == s[i] { DigitOfValue(s[i]); }
    assert Group(x, y, z) == g;
    assert ([x, y, z] + rest)[3..] == rest;
    ClearedIsClear(s);
    PaddedGroup(Cleared(s));
    assert Cleared(s)[4..] == Cleared(s[4..]) && Cleared(s)[..4] == g;
  }

  lemma {:induction false} EncodeDecodePadded(s: string)
    requires UrlSafe(s) && |s| % 4 != 1
    ensures DecodePadded(Padded(s)).Some?
    ensures EncodePadded(DecodePadded(Padded(s)).value) == Padded(Cleared(s))
  {
    hide Digit, DigitValue, First, Second, Third, Fourth, Front, Middle, Back;
    NoDigit();
    forall i | 0 <= i < |s| ensures Digit(Value(s[i])) == s[i] { DigitOfValue(s[i]); }
    if |s| >= 4 {
      EncodeDecodePadded(s[4..]);
      EncodeDecodeGroup(s);
    } else if |s| == 2 {
      SextetsBack(Value(s[0]), Value(s[1]), 0, 0);
    } else if |s| == 3 {
      SextetsBack(Value(s[0]), Value(s[1]), Value(s[2]), 0);
    }
  }

  /** Every unpadded text over the alphabet decodes, unless its length is one more than a
      multiple of four; and it is what this server writes for those bytes exactly when its
      unused bits are zero. */
  lemma EncodeDecode(s: string)
    requires UrlSafe(s)
    ensures DecodePadded(Padded(s)).Some? <==> |s| % 4 != 1
    ensures DecodePadded(Padded(s)).Some? ==>
              (EncodeCursor(DecodePadded(Padded(s)).value) == s <==> TailClear(s))
  {
    if |s| % 4 == 1 {
      OneTooMany(s);
    } else {
      EncodeDecodePadded(s);
      ClearedIsClear(s);
      NoDigit();
      UnpaddedShape(Cleared(s), PadCount(|s|));
    }
  }

  lemma {:induction false} OneTooMany(s: string)
    requires |s| % 4 == 1
    ensures DecodePadded(Padded(s)).None?
  {
    hide DigitValue, Front, Middle, Back, Padded;
    NoDigit();
    if |s| == 1 {
      PaddedOne(s);
    } else {
      PaddedGroup(s);
      OneTooMany(s[4..]);
      NoTail(s[..4], Padded(s[4..]));
    }
  }

  lemma PaddedOne(s: string)
    requires |s| == 1
    ensures |Padded(s)| == 4 && Padded(s)[1] == '='
  {
    assert Equals(3)[0] == '=';
  }

  lemma NoTail(g: string, rest: string)
    requires |g| == 4 && DecodePadded(rest).None?
    ensures DecodePadded(g + rest).None?
  {
    hide DigitValue, Front, Middle, Back;
    assert (g + rest)[4..] == rest && rest != "";
  }

  /** What the encoder writes is over the url-safe alphabet, and its unused bits are zero. */
  lemma EncodedIsCanonical(bs: seq<Byte>)
    ensures UrlSafe(EncodeCursor(bs)) && TailClear(EncodeCursor(bs))
  {
    hide EncodePadded, DecodePadded, DigitValue, Unpadded, TailClear;
    CursorRoundTrip(bs);
    var data := PaddedShape(bs);
    SafeIsPlain(data);
    UnpaddedShape(data, PadCount(|data|));
    EncodeDecode(data);
  }

  /** One text for its bytes: of all the texts that are read as them, with the signs of the plain
      alphabet, with padding, with white space around or with unused bits set, only one is the
      text this server writes for them. */
  lemma OneCanonicalText(s: string)
    requires DecodeCursor(s).Bytes?
    ensures EncodeCursor(DecodeCursor(s).bs) == s <==> UrlSafe(s) && TailClear(s)
  {
    hide EncodeCursor, DecodePadded, Padded, Strip, Trimmed, TailClear, UrlSafe;
    EncodedIsCanonical(DecodeCursor(s).bs);
    if UrlSafe(s) {
      SafeIsPlain(s);
      StripTrimmed(s);
      EncodeDecode(s);
    }
  }

  // ------------------------------------------------------ states and handles

  // What stands in a handle is a state, and `dumps` and `loads` are the JSON between the state and
  // its bytes: `dumps` writes one text for a state, without white space and with sorted keys, and
  // `loads` reads whatever it accepts as a JSON object and nothing else. Both are arbitrary here.

  datatype Handle<S> = State(state: S) | Unreadable(why: Refusal)

  function WriteHandle<S>(state: S, dumps: S -> seq<Byte>): string {
    EncodeCursor(dumps(state))
  }

  function ReadHandle<S>(handle: string, loads: seq<Byte> -> Option<S>): Handle<S> {
    match DecodeCursor(handle)
    case Refused(why) => Unreadable(why)
    case Bytes(bs) => match loads(bs) case None => Unreadable(NotAState) case Some(state) => State(state)
  }

  /** A state comes back from its handle exactly when its JSON text reads back and has between 1
      and 384 bytes. */
  lemma HandleReadBack<S>(state: S, dumps: S -> seq<Byte>, loads: seq<Byte> -> Option<S>)
    ensures ReadHandle(WriteHandle(state, dumps), loads) == State(state)
            <==> loads(dumps(state)) == Some(state) && 0 < |dumps(state)| <= 384
    ensures ReadHandle(WriteHandle(state, dumps), loads) == Unreadable(TooLong) <==> |dumps(state)| > 384
  {
    hide EncodeCursor, DecodeCursor;
    BytesReadBack(dumps(state));
  }

  /** The one canonical handle of a state: of every text that is read as a state, it is the one
      this server writes for it exactly when it is url-safe, its unused bits are zero, and the JSON
      in it is the text this server writes. */
  lemma OneCanonicalHandle<S>(handle: string, dumps: S -> seq<Byte>, loads: seq<Byte> -> Option<S>)
    requires ReadHandle(handle, loads).State?
    ensures WriteHandle(ReadHandle(handle, loads).state, dumps) == handle
            <==> UrlSafe(handle) && TailClear(handle)
                 && dumps(ReadHandle(handle, loads).state) == DecodeCursor(handle).bs
  {
    hide EncodeCursor, DecodePadded, Padded, Strip, Trimmed, TailClear, UrlSafe;
    var canonical := dumps(ReadHandle(handle, loads).state);
    OneCanonicalText(handle);
    CursorRoundTrip(canonical);
    if EncodeCursor(canonical) == handle {
      StripTrimmed(handle);
    }
  }

  // ----------------------------------------------- several handles of one state

  lemma ReadsAs(s: string, bs: seq<Byte>)
    requires 0 < |s| <= MAX_CURSOR_CHARS && Trimmed(s) && ReadsRaw(s, bs)
    ensures DecodeCursor(s) == Bytes(bs)
  {
    hide DecodePadded, Padded, Strip;
    StripTrimmed(s);
  }

  predicate IsGroup(g: string) {
    |g| == 4 && forall i :: 0 <= i < 4 ==> DigitValue(g[i]).Some?
  }

  function BytesOf(g: string): seq<Byte>
    requires |g| == 4
  {
    [Front(Value(g[0]), Value(g[1])), Middle(Value(g[1]), Value(g[2])), Back(Value(g[2]), Value(g[3]))]
  }

  /** The text, padded up, decodes to these bytes. */
  ghost predicate ReadsRaw(s: string, bs: seq<Byte>) {
    DecodePadded(Padded(s)) == Some(bs)
  }

  lemma GroupThen(g: string, rest: string, bs: seq<Byte>)
    requires IsGroup(g) && ReadsRaw(rest, bs)
    ensures ReadsRaw(g + rest, BytesOf(g) + bs)
  {
    hide DecodePadded, Padded, DigitValue, Front, Middle, Back;
    PaddedGroup(g + rest);
    assert (g + rest)[..4] == g && (g + rest)[4..] == rest;
    DecodeGroup(g, Padded(rest));
  }

  lemma LastTwo(a: char, b: char)
    requires DigitValue(a).Some? && DigitValue(b).Some?
    ensures ReadsRaw([a, b], [Front(Value(a), Value(b))]) && ReadsRaw([a, b, '=', '='], [Front(Value(a), Value(b))])
  {
    hide Front;
    assert Padded([a, b]) == [a, b, '=', '='] == Padded([a, b, '=', '=']);
  }

  lemma LastThree(a: char, b: char, c: char)
    requires DigitValue(a).Some? && DigitValue(b).Some? && DigitValue(c).Some?
    ensures ReadsRaw([a, b, c], [Front(Value(a), Value(b)), Middle(Value(b), Value(c))])
  {
    hide Front, Middle;
    assert Padded([a, b, c]) == [a, b, c, '='];
  }

  lemma Groups()
    ensures IsGroup("eyJv") && BytesOf("eyJv") == [123, 34, 111]
    ensures IsGroup("Ijow") && BytesOf("Ijow") == [34, 58, 48]
    ensures IsGroup("Ijog") && BytesOf("Ijog") == [34, 58, 32]
    ensures IsGroup("Ijoi") && BytesOf("Ijoi") == [34, 58, 34]
    ensures IsGroup("Pj4-") && BytesOf("Pj4-") == [62, 62, 62]
    ensures IsGroup("Pj4+") && BytesOf("Pj4+") == [62, 62, 62]
  {
  }

  lemma Ends()
    ensures ReadsRaw("fQ", [125]) && ReadsRaw("fR", [125]) && ReadsRaw("fQ==", [125])
    ensures ReadsRaw("MH0", [48, 125]) && ReadsRaw("In0", [34, 125])
  {
    hide ReadsRaw;
    LastTwo('f', 'Q');
    LastTwo('f', 'R');
    LastThree('M', 'H', '0');
    LastThree('I', 'n', '0');
  }

  /** The JSON texts {"o":0} and {"o": 0}, and {"o":">>>"}. */
  const COMPACT: seq<Byte> := [123, 34, 111, 34, 58, 48, 125]
  const SPACED: seq<Byte> := [123, 34, 111, 34, 58, 32, 48, 125]
  const ARROWS: seq<Byte> := [123, 34, 111, 34, 58, 34, 62, 62, 62, 34, 125]

  /** The first group of all of them, and one more. */
  lemma TwoGroups(g: string, rest: string, bs: seq<Byte>)
    requires |g| == 4 && IsGroup(g) && ReadsRaw(rest, bs)
    ensures ReadsRaw("eyJv" + (g + rest), [123, 34, 111] + (BytesOf(g) + bs))
  {
    hide ReadsRaw, IsGroup, BytesOf;
    Groups();
    GroupThen(g, rest, bs);
    GroupThen("eyJv", g + rest, BytesOf(g) + bs);
  }

  lemma CompactText(last: string, s: string)
    requires ReadsRaw(last, [125]) && s == "eyJv" + ("Ijow" + last) && |s| <= 12 && Trimmed(s)
    ensures DecodeCursor(s) == Bytes(COMPACT)
  {
    hide ReadsRaw, IsGroup, BytesOf, DecodeCursor, Trimmed;
    Groups();
    TwoGroups("Ijow", last, [125]);
    assert [123, 34, 111] + (BytesOf("Ijow") + [125]) == COMPACT;
    ReadsAs(s, COMPACT);
  }

  lemma CompactTexts()
    ensures DecodeCursor("eyJvIjowfQ") == DecodeCursor("eyJvIjowfR") == DecodeCursor("eyJvIjowfQ==") == Bytes(COMPACT)
  {
    hide ReadsRaw, DecodeCursor;
    Ends();
    CompactText("fQ", "eyJvIjowfQ");
    CompactText("fR", "eyJvIjowfR");
    CompactText("fQ==", "eyJvIjowfQ==");
  }

  lemma SpacedText()
    ensures DecodeCursor("eyJvIjogMH0") == Bytes(SPACED)
  {
    hide ReadsRaw, DecodeCursor, IsGroup, BytesOf;
    Ends();
    Groups();
    TwoGroups("Ijog", "MH0", [48, 125]);
    assert [123, 34, 111] + (BytesOf("Ijog") + [48, 125]) == SPACED;
    assert "eyJvIjogMH0" == "eyJv" + ("Ijog" + "MH0");
    ReadsAs("eyJvIjogMH0", SPACED);
  }

  lemma ArrowText(g: string, s: string)
    requires |g| == 4 && IsGroup(g) && BytesOf(g) == [62, 62, 62]
    requires s == "eyJv" + ("Ijoi" + (g + "In0")) && Trimmed(s)
    ensures DecodeCursor(s) == Bytes(ARROWS)
  {
    hide ReadsRaw, DecodeCursor, IsGroup, BytesOf, Trimmed;
    Ends();
    Groups();
    GroupThen(g, "In0", [34, 125]);
    TwoGroups("Ijoi", g + "In0", [62, 62, 62] + [34, 125]);
    assert [123, 34, 111] + (BytesOf("Ijoi") + ([62, 62, 62] + [34, 125])) == ARROWS;
    ReadsAs(s, ARROWS);
  }

  lemma ArrowTexts()
    ensures DecodeCursor("eyJvIjoiPj4-In0") == DecodeCursor("eyJvIjoiPj4+In0") == Bytes(ARROWS)
  {
    hide DecodeCursor, IsGroup, BytesOf;
    Groups();
    ArrowText("Pj4-", "eyJvIjoiPj4-In0");
    ArrowText("Pj4+", "eyJvIjoiPj4+In0");
  }

  lemma WhichAreCanonical()
    ensures UrlSafe("eyJvIjowfQ") && TailClear("eyJvIjowfQ")
    ensures UrlSafe("eyJvIjowfR") && !TailClear("eyJvIjowfR")
    ensures !UrlSafe("eyJvIjowfQ==")
    ensures UrlSafe("eyJvIjogMH0") && TailClear("eyJvIjogMH0")
    ensures !UrlSafe("eyJvIjoiPj4+In0")
  {
    assert "eyJvIjowfQ"[8..] == "fQ" && "eyJvIjowfR"[8..] == "fR" && "eyJvIjogMH0"[8..] == "MH0";
    assert "eyJvIjowfQ=="[10] == '=' && "eyJvIjoiPj4+In0"[11] == '+';
  }

  /** A set bit, a padding sign, white space in the JSON and a sign of the plain alphabet each make
      one more handle of a state. The server writes "eyJvIjowfQ" for the first one, and none of the
      others. */
  lemma ManyHandlesOneState<S>(zero: S, arrows: S, dumps: S -> seq<Byte>, loads: seq<Byte> -> Option<S>)
    requires dumps(zero) == COMPACT && loads(COMPACT) == Some(zero) && loads(SPACED) == Some(zero)
    requires loads(ARROWS) == Some(arrows)
    ensures WriteHandle(zero, dumps) == "eyJvIjowfQ" && ReadHandle("eyJvIjowfQ", loads) == State(zero)
    ensures ReadHandle("eyJvIjowfR", loads) == ReadHandle("eyJvIjowfQ==", loads) == State(zero)
    ensures ReadHandle("eyJvIjogMH0", loads) == State(zero)
    ensures ReadHandle("eyJvIjoiPj4-In0", loads) == ReadHandle("eyJvIjoiPj4+In0", loads) == State(arrows)
  {
    hide DecodeCursor, EncodeCursor, UrlSafe, TailClear;
    CompactTexts();
    SpacedText();
    ArrowTexts();
    WhichAreCanonical();
    OneCanonicalHandle("eyJvIjowfQ", dumps, loads);
  }
}
