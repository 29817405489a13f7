/** The text form of a tag list as it is kept in the `tags` column: a JSON
    array of strings written the way `json.dumps` writes it with its default
    `ensure_ascii` (`[]`, or `["a", "b"]` with `", "` between items, every
    character outside printable ASCII escaped), together with a decoder that
    reads that text back. */
module TagCodec {
  import opened Wrappers
  import opened Text

  /** Characters `json.dumps` writes as they are: printable ASCII other than
      `"` and `\`. */
  predicate Plain(c: char) {
    ' ' <= c <= '~' && c != '"' && c != '\\'
  }

  const Backspace: char := 8 as char
  const FormFeed: char := 12 as char

  /** The letter of a two-character escape, for the characters that have one. */
  function ShortEscape(c: char): Option<char> {
    if c == '"' then Some('"')
    else if c == '\\' then Some('\\')
    else if c == '\n' then Some('n')
    else if c == '\r' then Some('r')
    else if c == '\t' then Some('t')
    else if c == Backspace then Some('b')
    else if c == FormFeed then Some('f')
    else None
  }

  /** The character a two-character escape stands for. */
  function Unshort(e: char): Option<char> {
    if e == '"' then Some('"')
    else if e == '\\' then Some('\\')
    else if e == 'n' then Some('\n')
    else if e == 'r' then Some('\r')
    else if e == 't' then Some('\t')
    else if e == 'b' then Some(Backspace)
    else if e == 'f' then Some(FormFeed)
    else None
  }

  lemma ShortEscapeInverse(c: char)
    requires ShortEscape(c).Some?
    ensures ShortEscape(c).value != 'u' && Unshort(ShortEscape(c).value) == Some(c)
  {
  }

  function HexDigit(d: nat): (r: char)
    requires d < 16
    ensures r != '"' && r != '\\'
  {
    if d < 10 then ('0' as int + d) as char else ('a' as int + d - 10) as char
  }

  function HexValue(c: char): (r: Option<nat>)
    ensures r.Some? ==> r.value < 16
  {
    if '0' <= c <= '9' then Some(c as int - '0' as int)
    else if 'a' <= c <= 'f' then Some(c as int - 'a' as int + 10)
    else None
  }

  /** Four lower-case hexadecimal digits, most significant first. */
  function Hex4(n: nat): (r: string)
    requires n < 0x1_0000
    ensures |r| == 4
  {
    var q1 := n / 16;
    var q2 := q1 / 16;
    var q3 := q2 / 16;
    [HexDigit(q3), HexDigit(q2 % 16), HexDigit(q1 % 16), HexDigit(n % 16)]
  }

  function ParseHex4(t: string): (r: Option<nat>)
    requires |t| == 4
    ensures r.Some? ==> r.value < 0x1_0000
  {
    match (HexValue(t[0]), HexValue(t[1]), HexValue(t[2]), HexValue(t[3]))
    case (Some(a), Some(b), Some(c), Some(d)) => Some(((a * 16 + b) * 16 + c) * 16 + d)
    case _ => None
  }

  lemma Hex4RoundTrip(n: nat)
    requires n < 0x1_0000
    ensures ParseHex4(Hex4(n)) == Some(n)
  {
    var q1 := n / 16;
    var q2 := q1 / 16;
    var q3 := q2 / 16;
    assert HexValue(HexDigit(q3)) == Some(q3);
    assert HexValue(HexDigit(q2 % 16)) == Some(q2 % 16);
    assert HexValue(HexDigit(q1 % 16)) == Some(q1 % 16);
    assert HexValue(HexDigit(n % 16)) == Some(n % 16);
    assert ((q3 * 16 + q2 % 16) * 16 + q1 % 16) * 16 + n % 16 == n;
  }

  /** `\u` and four hexadecimal digits. */
  function UEscape(n: nat): (r: string)
    requires n < 0x1_0000
    ensures |r| == 6 && r[0] == '\\' && r[1] == 'u' && r[2..] == Hex4(n)
  {
    "\\u" + Hex4(n)
  }

  const SurrogateHigh: nat := 0xD800
  const SurrogateLow: nat := 0xDC00
  const SurrogateEnd: nat := 0xE000

  /** How `json.dumps` writes one character inside a string literal: as it
      is, as a two-character escape, as `\uXXXX`, or, above U+FFFF, as the
      `\uXXXX\uXXXX` of its UTF-16 surrogate pair. */
  function EscapeChar(c: char): (r: string)
    ensures |r| > 0 && r[0] != '"'
  {
    if Plain(c) then [c]
    else if ShortEscape(c).Some? then ['\\', ShortEscape(c).value]
    else if c as int < 0x1_0000 then UEscape(c as int)
    else
      var n := c as int - 0x1_0000;
      UEscape(SurrogateHigh + n / 0x400) + UEscape(SurrogateLow + n % 0x400)
  }

  /** The character of a surrogate pair. */
  function Combine(hi: nat, lo: nat): (r: int)
    requires SurrogateHigh <= hi < SurrogateLow && SurrogateLow <= lo < SurrogateEnd
    ensures 0x1_0000 <= r <= 0x10_FFFF
  {
    0x1_0000 + (hi - SurrogateHigh) * 0x400 + (lo - SurrogateLow)
  }

  /** Reads the escape sequence at the start of `t`, not checking yet that it
      is the one `json.dumps` would write. Returns the character and the
      length read. */
  function ReadChar(t: string): (r: Option<(char, nat)>)
    ensures r.Some? ==> 0 < r.value.1 <= |t|
  {
    if |t| == 0 || t[0] == '"' then None
    else if t[0] != '\\' then Some((t[0], 1))
    else if |t| < 2 then None
    else if t[1] != 'u' then
      match Unshort(t[1])
      case None => None
      case Some(c) => Some((c, 2))
    else if |t| < 6 then None
    else
      match ParseHex4(t[2..6])
      case None => None
      case Some(v) =>
        if SurrogateHigh <= v < SurrogateLow then
          if |t| >= 12 && t[6] == '\\' && t[7] == 'u' then
            match ParseHex4(t[8..12])
            case None => None
            case Some(w) =>
              if SurrogateLow <= w < SurrogateEnd then Some((Combine(v, w) as char, 12)) else None
          else None
        else if SurrogateLow <= v < SurrogateEnd then None
        else Some((v as char, 6))
  }

  /** One character of a string literal, accepted only in the spelling
      `json.dumps` gives it. */
  function ParseChar(t: string): (r: Option<(char, nat)>)
    ensures r.Some? ==> 0 < r.value.1 <= |t| && t[..r.value.1] == EscapeChar(r.value.0)
  {
    match ReadChar(t)
    case None => None
    case Some((c, n)) => if t[..n] == EscapeChar(c) then Some((c, n)) else None
  }

  /** Every character's spelling is read back as that character. */
  lemma ParseCharEscaped(c: char, rest: string)
    ensures ParseChar(EscapeChar(c) + rest) == Some((c, |EscapeChar(c)|))
  {
    var e := EscapeChar(c);
    var t := e + rest;
    assert t[..|e|] == e;
    if Plain(c) {
      assert t[0] == c;
    } else if ShortEscape(c).Some? {
      ReadShort(c, rest);
    } else if c as int < 0x1_0000 {
      ReadUnit(c, rest);
    } else {
      ReadPair(c, rest);
    }
  }

  lemma ReadShort(c: char, rest: string)
    requires !Plain(c) && ShortEscape(c).Some?
    ensures ReadChar(EscapeChar(c) + rest) == Some((c, 2))
  {
    var t := EscapeChar(c) + rest;
    ShortEscapeInverse(c);
    assert t[0] == '\\' && t[1] == ShortEscape(c).value;
  }

  lemma ReadUnit(c: char, rest: string)
    requires !Plain(c) && ShortEscape(c).None? && c as int < 0x1_0000
    ensures ReadChar(EscapeChar(c) + rest) == Some((c, 6))
  {
    var e := UEscape(c as int);
    assert EscapeChar(c) == e;
    var t := e + rest;
    assert t[0] == '\\' && t[1] == 'u';
    assert t[2..6] == Hex4(c as int);
    Hex4RoundTrip(c as int);
    assert ParseHex4(t[2..6]) == Some(c as int);
  }

  lemma ReadPair(c: char, rest: string)
    requires !Plain(c) && ShortEscape(c).None? && c as int >= 0x1_0000
    ensures ReadChar(EscapeChar(c) + rest) == Some((c, 12))
  {
    var n := c as int - 0x1_0000;
    var hi, lo := SurrogateHigh + n / 0x400, SurrogateLow + n % 0x400;
    var u, v := UEscape(hi), UEscape(lo);
    assert EscapeChar(c) == u + v;
    var t := u + v + rest;
    Hex4RoundTrip(hi);
    Hex4RoundTrip(lo);
    PairLayout(u, v, rest, hi, lo);
    ReadSurrogates(t, hi, lo);
    CombineSplit(n);
  }

  /** Splitting a code point into its surrogate pair and combining them
      again gives it back. */
  lemma CombineSplit(n: int)
    requires 0 <= n < 0x10_0000
    ensures SurrogateHigh <= SurrogateHigh + n / 0x400 < SurrogateLow
    ensures SurrogateLow <= SurrogateLow + n % 0x400 < SurrogateEnd
    ensures Combine(SurrogateHigh + n / 0x400, SurrogateLow + n % 0x400) == 0x1_0000 + n
  {
  }

  lemma PairLayout(u: string, v: string, rest: string, hi: nat, lo: nat)
    requires hi < 0x1_0000 && lo < 0x1_0000 && u == UEscape(hi) && v == UEscape(lo)
    requires ParseHex4(Hex4(hi)) == Some(hi) && ParseHex4(Hex4(lo)) == Some(lo)
    ensures var t := u + v + rest;
      && |t| >= 12 && t[0] == '\\' && t[1] == 'u' && t[6] == '\\' && t[7] == 'u'
      && ParseHex4(t[2..6]) == Some(hi) && ParseHex4(t[8..12]) == Some(lo)
  {
    var t := u + v + rest;
    assert t[2..6] == Hex4(hi);
    assert t[8..12] == Hex4(lo);
  }

  /** A high and a low surrogate escape are read as one character. */
  lemma ReadSurrogates(t: string, hi: nat, lo: nat)
    requires SurrogateHigh <= hi < SurrogateLow && SurrogateLow <= lo < SurrogateEnd
    requires |t| >= 12 && t[0] == '\\' && t[1] == 'u' && t[6] == '\\' && t[7] == 'u'
    requires ParseHex4(t[2..6]) == Some(hi) && ParseHex4(t[8..12]) == Some(lo)
    ensures ReadChar(t) == Some((Combine(hi, lo) as char, 12))
  {
  }

  /** The body of a JSON string literal as `json.dumps` writes it. */
  function Escape(s: string): string
    decreases |s|
  {
    if |s| == 0 then "" else EscapeChar(s[0]) + Escape(s[1..])
  }

  function Quote(s: string): string {
    "\"" + Escape(s) + "\""
  }

  function EncodeItems(l: seq<string>): string
    requires |l| > 0
    decreases |l|
  {
    if |l| == 1 then Quote(l[0]) else Quote(l[0]) + ", " + EncodeItems(l[1..])
  }

  /** `json.dumps(l)` for a list of strings. */
  function Encode(l: seq<string>): string {
    if l == [] then "[]" else "[" + EncodeItems(l) + "]"
  }

  /** Reads an escaped string body up to its closing quote. Returns the
      unescaped body and the text after the quote. */
  function ParseBody(t: string): (r: Option<(string, string)>)
    ensures r.Some? ==> |r.value.1| < |t|
    decreases |t|
  {
    if |t| == 0 then None
    else if t[0] == '"' then Some(("", t[1..]))
    else
      match ParseChar(t)
      case None => None
      case Some((c, n)) =>
        match ParseBody(t[n..])
        case None => None
        case Some((b, rest)) => Some(([c] + b, rest))
  }

  /** Reads `"item", "item", ... "item"]`. */
  function ParseItems(t: string): Option<seq<string>>
    decreases |t|
  {
    if |t| == 0 || t[0] != '"' then None
    else
      match ParseBody(t[1..])
      case None => None
      case Some((b, rest)) =>
        if rest == "]" then Some([b])
        else if |rest| >= 2 && rest[0] == ',' && rest[1] == ' ' then
          match ParseItems(rest[2..])
          case None => None
          case Some(bs) => Some([b] + bs)
        else None
  }

  /** `json.loads` for the text `Encode` writes: a list of strings with
      `", "` between items and every character spelled as `json.dumps`
      spells it. Any other text is reported as undecodable. */
  function Decode(t: string): Option<seq<string>> {
    if t == "[]" then Some([])
    else if |t| > 0 && t[0] == '[' then ParseItems(t[1..])
    else None
  }

  /** One step of `ParseBody`: a character, then the rest of the body. */
  lemma ParseBodyCons(t: string, c: char, n: nat, b: string, rest: string)
    requires |t| > 0 && t[0] != '"' && ParseChar(t) == Some((c, n))
    requires ParseBody(t[n..]) == Some((b, rest))
    ensures ParseBody(t) == Some(([c] + b, rest))
  {
  }

  /** The same step read backwards. */
  lemma ParseBodyParts(t: string)
    requires ParseBody(t).Some? && t[0] != '"'
    ensures ParseChar(t).Some?
    ensures var n := ParseChar(t).value.1;
      && ParseBody(t[n..]).Some?
      && ParseBody(t).value == ([ParseChar(t).value.0] + ParseBody(t[n..]).value.0, ParseBody(t[n..]).value.1)
  {
  }

  /** A character's spelling in front of a body is read as that character
      in front of the body's text. */
  lemma ParseSpelled(c: char, u: string, b: string, rest: string)
    requires ParseBody(u) == Some((b, rest))
    ensures ParseBody(EscapeChar(c) + u) == Some(([c] + b, rest))
  {
    var e := EscapeChar(c);
    var t := e + u;
    ParseCharEscaped(c, u);
    assert t[0] == e[0] != '"';
    assert t[|e|..] == u;
    ParseBodyCons(t, c, |e|, b, rest);
  }

  lemma ParseClosing(rest: string)
    ensures ParseBody("\"" + rest) == Some(("", rest))
  {
    var t := "\"" + rest;
    assert t[1..] == rest;
  }

  lemma EscapeSplit(s: string, rest: string)
    requires |s| > 0
    ensures Escape(s) + "\"" + rest == EscapeChar(s[0]) + (Escape(s[1..]) + "\"" + rest)
  {
    var a, b := EscapeChar(s[0]), Escape(s[1..]);
    assert Escape(s) == a + b;
    Regroup(a + b, "\"", rest);
    Regroup(a, b, "\"" + rest);
    Regroup(b, "\"", rest);
  }

  lemma Regroup(a: string, b: string, c: string)
    ensures a + b + c == a + (b + c)
  {
  }

  lemma ParseEscapedCons(s: string, rest: string)
    requires |s| > 0 && ParseBody(Escape(s[1..]) + "\"" + rest) == Some((s[1..], rest))
    ensures ParseBody(Escape(s) + "\"" + rest) == Some((s, rest))
  {
    ParseSpelled(s[0], Escape(s[1..]) + "\"" + rest, s[1..], rest);
    EscapeSplit(s, rest);
    assert [s[0]] + s[1..] == s;
  }

  lemma {:induction false} ParseEscaped(s: string, rest: string)
    ensures ParseBody(Escape(s) + "\"" + rest) == Some((s, rest))
    decreases |s|
  {
    if |s| == 0 {
      assert Escape(s) + "\"" + rest == "\"" + rest;
      ParseClosing(rest);
    } else {
      ParseEscaped(s[1..], rest);
      ParseEscapedCons(s, rest);
    }
  }

  lemma EscapeCons(c: char, s: string)
    ensures Escape([c] + s) == EscapeChar(c) + Escape(s)
  {
    assert ([c] + s)[0] == c && ([c] + s)[1..] == s;
  }

  /** A character's spelling followed by an escaped body is the escaped
      body with that character in front. */
  lemma EscapedStep(t: string, c: char, n: nat, b: string, rest: string)
    requires n <= |t| && t[..n] == EscapeChar(c)
    requires t[n..] == Escape(b) + "\"" + rest
    ensures t == Escape([c] + b) + "\"" + rest
  {
    EscapeCons(c, b);
    assert t == t[..n] + t[n..];
  }

  lemma {:induction false} ParsedIsEscaped(t: string)
    requires ParseBody(t).Some?
    ensures t == Escape(ParseBody(t).value.0) + "\"" + ParseBody(t).value.1
    decreases |t|
  {
    if t[0] == '"' {
      assert t == "\"" + t[1..];
    } else {
      ParseBodyParts(t);
      var (c, n) := ParseChar(t).value;
      ParsedIsEscaped(t[n..]);
      var (b, rest) := ParseBody(t[n..]).value;
      EscapedStep(t, c, n, b, rest);
    }
  }

  /** The last item of a list is read up to the closing bracket. */
  lemma ParseLastItem(x: string)
    ensures ParseItems(Quote(x) + "]") == Some([x])
  {
    var t := Quote(x) + "]";
    assert t[1..] == Escape(x) + "\"" + "]";
    ParseEscaped(x, "]");
  }

  /** An item followed by `", "` is read, then the items after it. */
  lemma ParseNextItem(x: string, u: string, bs: seq<string>)
    requires ParseItems(u) == Some(bs)
    ensures ParseItems(Quote(x) + ", " + u) == Some([x] + bs)
  {
    var t := Quote(x) + ", " + u;
    var after := ", " + u;
    assert t[1..] == Escape(x) + "\"" + after;
    ParseEscaped(x, after);
    assert after[0] == ',' && after[1] == ' ' && after[2..] == u;
  }

  lemma {:induction false} ParseEncodedItems(l: seq<string>)
    requires |l| > 0
    ensures ParseItems(EncodeItems(l) + "]") == Some(l)
    decreases |l|
  {
    if |l| == 1 {
      ParseLastItem(l[0]);
      assert [l[0]] == l;
    } else {
      var u := EncodeItems(l[1..]) + "]";
      ParseEncodedItems(l[1..]);
      ParseNextItem(l[0], u, l[1..]);
      assert EncodeItems(l) + "]" == Quote(l[0]) + ", " + u;
      assert [l[0]] + l[1..] == l;
    }
  }

  /** What a successful `ParseItems` starts with: a quoted body. */
  lemma ParseItemsOpens(t: string)
    requires ParseItems(t).Some?
    ensures |t| > 0 && t[0] == '"' && ParseBody(t[1..]).Some?
  {
  }

  /** A body followed by the bracket is the last item. */
  lemma ParseItemsLast(t: string, b: string)
    requires ParseItems(t).Some? && ParseBody(t[1..]) == Some((b, "]"))
    ensures ParseItems(t).value == [b]
  {
  }

  /** A body followed by anything else is followed by `", "` and more items. */
  lemma ParseItemsMore(t: string, b: string, rest: string)
    requires ParseItems(t).Some? && ParseBody(t[1..]) == Some((b, rest)) && rest != "]"
    ensures |rest| >= 2 && rest == ", " + rest[2..]
    ensures ParseItems(rest[2..]).Some? && ParseItems(t).value == [b] + ParseItems(rest[2..]).value
  {
    assert rest[0] == ',' && rest[1] == ' ';
  }

  lemma EncodeItemsCons(b: string, bs: seq<string>, rest: string)
    requires |bs| > 0 && rest == ", " + (EncodeItems(bs) + "]")
    ensures Quote(b) + rest == EncodeItems([b] + bs) + "]"
  {
    var l := [b] + bs;
    assert l[0] == b && l[1..] == bs;
    assert EncodeItems(l) == Quote(b) + ", " + EncodeItems(bs);
    RegroupFour(Quote(b), ", ", EncodeItems(bs), "]");
  }

  lemma RegroupFour(a: string, b: string, c: string, d: string)
    ensures a + (b + (c + d)) == a + b + c + d
  {
  }

  lemma QuotedFront(t: string, b: string, rest: string)
    requires |t| > 0 && t[0] == '"' && t[1..] == Escape(b) + "\"" + rest
    ensures t == Quote(b) + rest
  {
    assert t == "\"" + t[1..];
  }

  lemma {:induction false} ParsedItemsAreEncoded(t: string)
    requires ParseItems(t).Some?
    ensures |ParseItems(t).value| > 0
    ensures t == EncodeItems(ParseItems(t).value) + "]"
    decreases |t|
  {
    ParseItemsOpens(t);
    var (b, rest) := ParseBody(t[1..]).value;
    ParsedIsEscaped(t[1..]);
    QuotedFront(t, b, rest);
    if rest == "]" {
      ParseItemsLast(t, b);
    } else {
      ParseItemsMore(t, b, rest);
      ParsedItemsAreEncoded(rest[2..]);
      EncodeItemsCons(b, ParseItems(rest[2..]).value, rest);
    }
  }

  /** Reading back what was written gives the same list. */
  lemma RoundTrip(l: seq<string>)
    ensures Decode(Encode(l)) == Some(l)
  {
    var t := Encode(l);
    if l != [] {
      ParseEncodedItems(l);
      assert t[1..] == EncodeItems(l) + "]";
      assert t != "[]" by {
        assert t[1] == '"';
      }
    }
  }

  /** A text that decodes is the encoding of what it decodes to. */
  lemma DecodedIsEncoding(t: string)
    requires Decode(t).Some?
    ensures t == Encode(Decode(t).value)
  {
    if t != "[]" {
      ParsedItemsAreEncoded(t[1..]);
      assert t == "[" + t[1..];
    }
  }

  /** The codec is a bijection between tag lists and the texts that decode:
      a text decodes to `l` exactly when it is the encoding of `l`. */
  lemma DecodeIffEncode(t: string, l: seq<string>)
    ensures Decode(t) == Some(l) <==> t == Encode(l)
  {
    if t == Encode(l) {
      RoundTrip(l);
    }
    if Decode(t) == Some(l) {
      DecodedIsEncoding(t);
    }
  }

  /** A string of plain characters is written as it is. */
  lemma {:induction false} EscapePlain(s: string)
    requires forall k :: 0 <= k < |s| ==> Plain(s[k])
    ensures Escape(s) == s
    decreases |s|
  {
    if |s| > 0 {
      EscapePlain(s[1..]);
      assert s == [s[0]] + s[1..];
    }
  }

  /** Every character of `s` is ASCII. */
  predicate AllAscii(s: string) {
    forall ch :: ch in s ==> ch as int < 0x80
  }

  lemma AsciiAppend(a: string, b: string)
    requires AllAscii(a) && AllAscii(b)
    ensures AllAscii(a + b)
  {
  }

  lemma UEscapeIsAscii(n: nat)
    requires n < 0x1_0000
    ensures AllAscii(UEscape(n))
  {
    assert AllAscii(Hex4(n));
    AsciiAppend("\\u", Hex4(n));
  }

  lemma EscapeCharIsAscii(c: char)
    ensures AllAscii(EscapeChar(c))
  {
    if Plain(c) || ShortEscape(c).Some? {
    } else if c as int < 0x1_0000 {
      UEscapeIsAscii(c as int);
    } else {
      var n := c as int - 0x1_0000;
      var hi, lo := SurrogateHigh + n / 0x400, SurrogateLow + n % 0x400;
      UEscapeIsAscii(hi);
      UEscapeIsAscii(lo);
      assert EscapeChar(c) == UEscape(hi) + UEscape(lo);
      AsciiAppend(UEscape(hi), UEscape(lo));
    }
  }

  lemma {:induction false} EscapeIsAscii(s: string)
    ensures AllAscii(Escape(s))
    decreases |s|
  {
    if |s| > 0 {
      EscapeCharIsAscii(s[0]);
      EscapeIsAscii(s[1..]);
    }
  }

  lemma {:induction false} EncodeItemsIsAscii(l: seq<string>)
    requires |l| > 0
    ensures AllAscii(EncodeItems(l))
    decreases |l|
  {
    EscapeIsAscii(l[0]);
    if |l| > 1 {
      EncodeItemsIsAscii(l[1..]);
    }
  }

  /** The text written for any tag list is pure ASCII: `json.dumps`
      escapes every other character. */
  lemma EncodeIsAscii(l: seq<string>)
    ensures AllAscii(Encode(l))
  {
    if l != [] {
      EncodeItemsIsAscii(l);
    }
  }

  lemma ContainsItself(p: string)
    ensures Contains(p, p)
  {
    assert p[0..|p|] == p;
    assert OccursAt(p, p, 0);
  }

  lemma {:induction false} QuotedItemInItems(l: seq<string>, x: string)
    requires |l| > 0 && x in l
    ensures Contains(EncodeItems(l), Quote(x))
    decreases |l|
  {
    if l[0] == x {
      ContainsItself(Quote(x));
      var rest := if |l| == 1 then "" else ", " + EncodeItems(l[1..]);
      ContainsWithin("", Quote(x), rest, Quote(x));
      assert EncodeItems(l) == "" + Quote(x) + rest;
    } else {
      assert x in l[1..];
      QuotedItemInItems(l[1..], x);
      ContainsWithin(Quote(l[0]) + ", ", EncodeItems(l[1..]), "", Quote(x));
      assert EncodeItems(l) == Quote(l[0]) + ", " + EncodeItems(l[1..]) + "";
    }
  }

  /** Every item of a list appears, quoted, in the list's encoding. */
  lemma QuotedItemInEncoding(l: seq<string>, x: string)
    requires x in l
    ensures Contains(Encode(l), Quote(x))
  {
    QuotedItemInItems(l, x);
    ContainsWithin("[", EncodeItems(l), "]", Quote(x));
  }
}
