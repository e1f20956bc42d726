/** The three escapings a bound value can receive: control-character
    stripping followed by htmlspecialchars with ENT_QUOTES (the default),
    and json_encode for strings (the `$` hint). htmlspecialchars_decode and
    a JSON string decoder are given beside them as the reference each
    escaping is proved against. */
module Escape {
  import opened Text

  /** The characters matched by [\x00-\x08\x0B\x0C\x0E-\x1F]: every ASCII
      control character except tab, line feed and carriage return. */
  predicate IsStripped(c: char)
  {
    c < ' ' && c != '\t' && c != '\n' && c != '\r'
  }

  /** preg_replace('/[\x00-\x08\x0B\x0C\x0E-\x1F]+/', '', s): deleting the
      runs of those characters is deleting each of them. */
  function StripControl(s: string): (r: string)
    ensures forall c :: c in r <==> c in s && !IsStripped(c)
    ensures |r| <= |s|
    ensures (forall i :: 0 <= i < |s| ==> !IsStripped(s[i])) ==> r == s
  {
    if s == [] then []
    else (if IsStripped(s[0]) then [] else [s[0]]) + StripControl(s[1..])
  }

  /** Stripping works piece by piece: the kept characters stay in their
      order, each as often as it occurs. */
  lemma {:induction false} StripControlAppend(a: string, b: string)
    ensures StripControl(a + b) == StripControl(a) + StripControl(b)
    decreases |a|
  {
    if a != [] {
      assert (a + b)[0] == a[0];
      assert (a + b)[1..] == a[1..] + b;
      StripControlAppend(a[1..], b);
    } else {
      assert a + b == b;
    }
  }

  /** htmlspecialchars with ENT_QUOTES, one character at a time. */
  function HtmlChar(c: char): string
  {
    if c == '&' then "&amp;"
    else if c == '"' then "&quot;"
    else if c == '\'' then "&#039;"
    else if c == '<' then "&lt;"
    else if c == '>' then "&gt;"
    else [c]
  }

  /** The characters an entity written by htmlspecialchars is made of. */
  const EntityChars: string := "&amp;quot#039ltg"

  /** No character of `s` is markup-significant. */
  predicate MarkupFree(s: string)
  {
    forall i :: 0 <= i < |s| ==> s[i] != '<' && s[i] != '>' && s[i] != '"' && s[i] != '\''
  }

  /** htmlspecialchars(s, ENT_QUOTES) over well-formed characters: the result
      holds no raw `<`, `>`, `"` or `'`, and every character in it is one of
      `s` or part of an entity. */
  function HtmlEscape(s: string): (r: string)
    ensures MarkupFree(r)
    ensures forall c :: c in r ==> c in s || c in EntityChars
  {
    if s == [] then []
    else HtmlChar(s[0]) + HtmlEscape(s[1..])
  }

  /** htmlspecialchars_decode(s, ENT_QUOTES): the reference inverse. */
  function HtmlDecode(s: string): string
    decreases |s|
  {
    if |s| >= 5 && s[..5] == "&amp;" then "&" + HtmlDecode(s[5..])
    else if |s| >= 6 && s[..6] == "&quot;" then "\"" + HtmlDecode(s[6..])
    else if |s| >= 6 && s[..6] == "&#039;" then "'" + HtmlDecode(s[6..])
    else if |s| >= 4 && s[..4] == "&lt;" then "<" + HtmlDecode(s[4..])
    else if |s| >= 4 && s[..4] == "&gt;" then ">" + HtmlDecode(s[4..])
    else if s == [] then []
    else [s[0]] + HtmlDecode(s[1..])
  }

  /** A character that starts no entity decodes to itself. */
  lemma {:induction false} HtmlDecodePlain(c: char, x: string)
    requires c != '&'
    ensures HtmlDecode([c] + x) == [c] + HtmlDecode(x)
  {
    var w := [c] + x;
    assert w[0] == c && w[1..] == x;
    assert |w| >= 4 ==> w[..4] != "&lt;" && w[..4] != "&gt;";
    assert |w| >= 5 ==> w[..5] != "&amp;";
    assert |w| >= 6 ==> w[..6] != "&quot;" && w[..6] != "&#039;";
  }

  /** Each entity decodes to the character it stands for. */
  lemma {:induction false} HtmlDecodeEntity(e: string, c: char, x: string)
    requires (e, c) in [("&amp;", '&'), ("&quot;", '"'), ("&#039;", '\''), ("&lt;", '<'), ("&gt;", '>')]
    ensures HtmlDecode(e + x) == [c] + HtmlDecode(x)
  {
    var w := e + x;
    assert w[..|e|] == e && w[|e|..] == x;
    assert w[1] == e[1] && w[2] == e[2];
  }

  /** Decoding the escape of one character gives that character back and
      leaves the rest to be decoded. */
  lemma {:induction false} HtmlDecodeChar(c: char, x: string)
    ensures HtmlDecode(HtmlChar(c) + x) == [c] + HtmlDecode(x)
  {
    if c == '&' {
      HtmlDecodeEntity("&amp;", c, x);
    } else if c == '"' {
      HtmlDecodeEntity("&quot;", c, x);
    } else if c == '\'' {
      HtmlDecodeEntity("&#039;", c, x);
    } else if c == '<' {
      HtmlDecodeEntity("&lt;", c, x);
    } else if c == '>' {
      HtmlDecodeEntity("&gt;", c, x);
    } else {
      HtmlDecodePlain(c, x);
    }
  }

  /** htmlspecialchars_decode undoes htmlspecialchars: the escaping loses
      nothing. */
  lemma {:induction false} HtmlRoundTrip(s: string)
    ensures HtmlDecode(HtmlEscape(s)) == s
  {
    if s != [] {
      HtmlDecodeChar(s[0], HtmlEscape(s[1..]));
      HtmlRoundTrip(s[1..]);
      assert s == [s[0]] + s[1..];
    }
  }

  /** The default escaping of get_replacement: strip the control characters,
      then escape the markup. */
  function EscapeDefault(s: string): (r: string)
  {
    HtmlEscape(StripControl(s))
  }

  /** The default escaping yields no stripped control character and no raw
      `<`, `>`, `"` or `'`; decoding its entities gives back the input less
      its control characters, so tab, line feed and carriage return survive. */
  lemma {:induction false} EscapeDefaultSafe(s: string)
    ensures forall c :: c in EscapeDefault(s) ==> !IsStripped(c)
    ensures MarkupFree(EscapeDefault(s))
    ensures HtmlDecode(EscapeDefault(s)) == StripControl(s)
    ensures forall c :: c in s && (c == '\t' || c == '\n' || c == '\r') ==> c in HtmlDecode(EscapeDefault(s))
  {
    HtmlRoundTrip(StripControl(s));
    forall c | c in EscapeDefault(s)
      ensures !IsStripped(c)
    {
      if c !in StripControl(s) {
        assert c in EntityChars;
      }
    }
  }

  // ---------------------------------------------------------------------
  // json_encode of a string, with PHP's default flags.

  function HexDigit(d: nat): char
    requires d < 16
  {
    if d < 10 then ('0' as int + d) as char else ('a' as int + d - 10) as char
  }

  /** Four lower-case hexadecimal digits, as json_encode writes in \uXXXX. */
  function Hex4(n: nat): string
    requires n < 0x10000
  {
    [HexDigit(n / 0x1000), HexDigit(n % 0x1000 / 0x100), HexDigit(n % 0x100 / 0x10), HexDigit(n % 0x10)]
  }

  function HexValue(c: char): Option<nat>
  {
    if '0' <= c <= '9' then Some(c as int - '0' as int)
    else if 'a' <= c <= 'f' then Some(c as int - 'a' as int + 10)
    else if 'A' <= c <= 'F' then Some(c as int - 'A' as int + 10)
    else None
  }

  function ParseHex4(s: string): (r: Option<nat>)
    requires |s| == 4
    ensures r.Some? ==> r.value < 0x10000
  {
    match (HexValue(s[0]), HexValue(s[1]), HexValue(s[2]), HexValue(s[3]))
    case (Some(a), Some(b), Some(c), Some(d)) =>
      if a < 16 && b < 16 && c < 16 && d < 16 then Some(a * 0x1000 + b * 0x100 + c * 0x10 + d) else None
    case _ => None
  }

  lemma {:induction false} HexDigitValue(d: nat)
    requires d < 16
    ensures HexValue(HexDigit(d)) == Some(d)
  {
  }

  lemma {:induction false} ParseHex4Inverse(n: nat)
    requires n < 0x10000
    ensures ParseHex4(Hex4(n)) == Some(n)
  {
    var a, r1 := n / 0x1000, n % 0x1000;
    var b, r2 := r1 / 0x100, r1 % 0x100;
    var c, d := r2 / 0x10, r2 % 0x10;
    assert n == a * 0x1000 + r1;
    assert r1 == b * 0x100 + r2;
    assert r2 == c * 0x10 + d;
    assert n % 0x100 == r2 by {
      assert n == (a * 0x10 + b) * 0x100 + r2;
    }
    assert n % 0x10 == d by {
      assert n == ((a * 0x10 + b) * 0x10 + c) * 0x10 + d;
    }
    HexDigitValue(a);
    HexDigitValue(b);
    HexDigitValue(c);
    HexDigitValue(d);
  }

  /** json_encode's escape of one character: the two-character escapes
      for `"`, `\`, `/`, backspace, form feed, line feed, carriage return and
      tab; \u00XX for the other control characters; \uXXXX for every
      character beyond ASCII, as a UTF-16 surrogate pair above U+FFFF. */
  function JsonChar(c: char): string
  {
    var n := c as int;
    if c == '"' then "\\\""
    else if c == '\\' then "\\\\"
    else if c == '/' then "\\/"
    else if n == 8 then "\\b"
    else if n == 12 then "\\f"
    else if c == '\n' then "\\n"
    else if c == '\r' then "\\r"
    else if c == '\t' then "\\t"
    else if n < 0x20 then "\\u" + Hex4(n)
    else if n < 0x80 then [c]
    else if n < 0x10000 then "\\u" + Hex4(n)
    else
      var v := n - 0x10000;
      "\\u" + Hex4(0xD800 + v / 0x400) + "\\u" + Hex4(0xDC00 + v % 0x400)
  }

  function JsonChars(s: string): string
  {
    if s == [] then [] else JsonChar(s[0]) + JsonChars(s[1..])
  }

  /** json_encode of a string: the escaped characters between double quotes. */
  function JsonString(s: string): (r: string)
    ensures |r| >= 2 && r[0] == '"' && r[|r| - 1] == '"'
  {
    "\"" + JsonChars(s) + "\""
  }

  function Prepend(c: char, r: Option<string>): Option<string>
  {
    if r.Some? then Some([c] + r.value) else None
  }

  /** The reference decoder of the inside of a JSON string (RFC 8259,
      section 7): escapes are undone, a raw quote or control character is an
      error, and a surrogate pair becomes one character. */
  function JsonDecodeChars(s: string): Option<string>
    decreases |s|
  {
    if s == [] then Some([])
    else if s[0] == '\\' then
      if |s| < 2 then None
      else if s[1] == '"' then Prepend('"', JsonDecodeChars(s[2..]))
      else if s[1] == '\\' then Prepend('\\', JsonDecodeChars(s[2..]))
      else if s[1] == '/' then Prepend('/', JsonDecodeChars(s[2..]))
      else if s[1] == 'b' then Prepend(8 as char, JsonDecodeChars(s[2..]))
      else if s[1] == 'f' then Prepend(12 as char, JsonDecodeChars(s[2..]))
      else if s[1] == 'n' then Prepend('\n', JsonDecodeChars(s[2..]))
      else if s[1] == 'r' then Prepend('\r', JsonDecodeChars(s[2..]))
      else if s[1] == 't' then Prepend('\t', JsonDecodeChars(s[2..]))
      else if s[1] == 'u' && |s| >= 6 then
        match ParseHex4(s[2..6])
        case None => None
        case Some(u) =>
          if u < 0xD800 || 0xE000 <= u then Prepend(u as char, JsonDecodeChars(s[6..]))
          else if 0xDC00 <= u || |s| < 12 || s[6..8] != "\\u" then None
          else
            match ParseHex4(s[8..12])
            case None => None
            case Some(l) =>
              if 0xDC00 <= l < 0xE000
              then Prepend((0x10000 + (u - 0xD800) * 0x400 + (l - 0xDC00)) as char, JsonDecodeChars(s[12..]))
              else None
      else None
    else if s[0] == '"' || s[0] < ' ' then None
    else Prepend(s[0], JsonDecodeChars(s[1..]))
  }

  /** The reference decoder of a JSON string literal. */
  function JsonDecodeString(s: string): Option<string>
  {
    if |s| >= 2 && s[0] == '"' && s[|s| - 1] == '"' then JsonDecodeChars(s[1..|s| - 1]) else None
  }

  lemma {:induction false} JsonDecodeChar(c: char, x: string)
    ensures JsonDecodeChars(JsonChar(c) + x) == Prepend(c, JsonDecodeChars(x))
  {
    var n := c as int;
    var w := JsonChar(c) + x;
    if c == '"' || c == '\\' || c == '/' || n == 8 || n == 12 || c == '\n' || c == '\r' || c == '\t' {
      assert w[2..] == x;
    } else if n < 0x20 || 0x80 <= n < 0x10000 {
      assert w[2..6] == Hex4(n) && w[6..] == x;
      ParseHex4Inverse(n);
    } else if n < 0x80 {
      assert w[0] == c && w[1..] == x;
    } else {
      var v := n - 0x10000;
      var hi, lo := 0xD800 + v / 0x400, 0xDC00 + v % 0x400;
      assert 0x10000 + (hi - 0xD800) * 0x400 + (lo - 0xDC00) == n;
      JsonDecodePair(c, x, hi, lo);
    }
  }

  /** A character beyond the Basic Multilingual Plane decodes from its
      surrogate pair. */
  lemma {:induction false} JsonDecodePair(c: char, x: string, hi: nat, lo: nat)
    requires 0xD800 <= hi < 0xDC00 && 0xDC00 <= lo < 0xE000
    requires c as int == 0x10000 + (hi - 0xD800) * 0x400 + (lo - 0xDC00)
    ensures JsonDecodeChars("\\u" + Hex4(hi) + "\\u" + Hex4(lo) + x) == Prepend(c, JsonDecodeChars(x))
  {
    var w := "\\u" + Hex4(hi) + "\\u" + Hex4(lo) + x;
    assert w[2..6] == Hex4(hi) && w[6..8] == "\\u" && w[8..12] == Hex4(lo) && w[12..] == x;
    ParseHex4Inverse(hi);
    ParseHex4Inverse(lo);
  }

  /** Decoding the escaped characters gives the string back. */
  lemma {:induction false} JsonCharsRoundTrip(s: string)
    ensures JsonDecodeChars(JsonChars(s)) == Some(s)
  {
    if s != [] {
      JsonDecodeChar(s[0], JsonChars(s[1..]));
      JsonCharsRoundTrip(s[1..]);
      assert s == [s[0]] + s[1..];
    }
  }

  /** json_encode of a string is a JSON string literal whose decoding is the
      string itself: the `$` hint loses nothing. */
  lemma {:induction false} JsonStringRoundTrip(s: string)
    ensures JsonDecodeString(JsonString(s)) == Some(s)
  {
    var r := JsonString(s);
    assert r[1..|r| - 1] == JsonChars(s);
    JsonCharsRoundTrip(s);
  }
}
