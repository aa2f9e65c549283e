/** The text columns `tags`, `achievements`, `technologies`, `bio_paragraphs` and
    `highlights` hold a list of strings as JSON. `Encode` writes that text the way
    `JSON.stringify` writes an array of strings; `Decode` reads it back the way
    `JSON.parse` does for text of that shape (no white space between tokens). */
module JsonList {
  import opened Wrappers
  import Hex

  /** The escape `JSON.stringify` writes for one character of a string. */
  function EscapeChar(c: char): string {
    if c == '"' then "\\\""
    else if c == '\\' then "\\\\"
    else if c == '\U{0008}' then "\\b"
    else if c == '\U{000C}' then "\\f"
    else if c == '\n' then "\\n"
    else if c == '\r' then "\\r"
    else if c == '\t' then "\\t"
    else if c < ' ' then "\\u00" + [Hex.HexDigit(c as int / 16), Hex.HexDigit(c as int % 16)]
    else [c]
  }

  function Escape(s: string): string {
    if s == [] then [] else EscapeChar(s[0]) + Escape(s[1..])
  }

  /** A JSON string literal. */
  function Quote(s: string): string {
    "\"" + Escape(s) + "\""
  }

  /** The elements of a non-empty list, comma-separated, then the closing bracket. */
  function Items(xs: seq<string>): string
    requires xs != []
  {
    Quote(xs[0]) + (if |xs| == 1 then "]" else "," + Items(xs[1..]))
  }

  /** `JSON.stringify(xs)` for an array of strings. */
  function Encode(xs: seq<string>): string {
    "[" + (if xs == [] then "]" else Items(xs))
  }

  /** The character a two-character escape `\e` stands for, if `e` is one. */
  function ShortEscape(e: char): Option<char> {
    if e == '"' then Some('"')
    else if e == '\\' then Some('\\')
    else if e == '/' then Some('/')
    else if e == 'b' then Some('\U{0008}')
    else if e == 'f' then Some('\U{000C}')
    else if e == 'n' then Some('\n')
    else if e == 'r' then Some('\r')
    else if e == 't' then Some('\t')
    else None
  }

  /** The value of four hex digits of a `\u` escape. */
  function HexQuad(s: string): Option<int>
    requires |s| == 4
  {
    if forall i | 0 <= i < 4 :: Hex.IsHexChar(s[i]) then
      Some(((Hex.HexValue(s[0]) * 16 + Hex.HexValue(s[1])) * 16 + Hex.HexValue(s[2])) * 16 + Hex.HexValue(s[3]))
    else None
  }

  /** The characters of a string literal up to its closing quote, and the text after it. */
  function ParseChars(s: string): Option<(string, string)>
    decreases |s|
  {
    if s == [] || s[0] < ' ' then None
    else if s[0] == '"' then Some(([], s[1..]))
    else if s[0] != '\\' then
      match ParseChars(s[1..])
      case None => None
      case Some((cs, rest)) => Some(([s[0]] + cs, rest))
    else if |s| < 2 then None
    else if s[1] == 'u' then
      if |s| < 6 then None
      else match HexQuad(s[2..6])
        case None => None
        case Some(v) =>
          if 0xD800 <= v < 0xE000 then None
          else match ParseChars(s[6..])
            case None => None
            case Some((cs, rest)) => Some(([v as char] + cs, rest))
    else match ShortEscape(s[1])
      case None => None
      case Some(c) =>
        match ParseChars(s[2..])
        case None => None
        case Some((cs, rest)) => Some(([c] + cs, rest))
  }

  /** Comma-separated string literals ended by `]`. */
  function ParseItems(s: string): Option<seq<string>>
    decreases |s|
  {
    if s == [] || s[0] != '"' then None
    else match ParseChars(s[1..])
      case None => None
      case Some((x, rest)) =>
        if |rest| >= |s| then None
        else if rest == "]" then Some([x])
        else if rest != [] && rest[0] == ',' then
          match ParseItems(rest[1..])
          case None => None
          case Some(ys) => Some([x] + ys)
        else None
  }

  /** `JSON.parse(s)` for text holding an array of strings; anything else fails (`None`). */
  function Decode(s: string): Option<seq<string>> {
    if s == "[]" then Some([])
    else if s == [] || s[0] != '[' then None
    else ParseItems(s[1..])
  }

  /** Reading one escaped character consumes exactly its escape. */
  lemma ParseEscapeChar(c: char, tail: string)
    ensures ParseChars(EscapeChar(c) + tail) ==
      match ParseChars(tail)
      case None => None
      case Some((cs, rest)) => Some(([c] + cs, rest))
  {
    var t := EscapeChar(c) + tail;
    if c < ' ' && c != '\U{0008}' && c != '\U{000C}' && c != '\n' && c != '\r' && c != '\t' {
      var hi, lo := c as int / 16, c as int % 16;
      Hex.HexValueOfDigit(hi);
      Hex.HexValueOfDigit(lo);
      Hex.HexValueOfDigit(0);
      assert t[2..6] == ['0', '0', Hex.HexDigit(hi), Hex.HexDigit(lo)];
      assert HexQuad(t[2..6]) == Some(c as int);
      assert t[6..] == tail;
    } else if |EscapeChar(c)| == 2 {
      assert t[2..] == tail;
    } else {
      assert t[1..] == tail;
    }
  }

  lemma {:induction false} ParseEscape(s: string, rest: string)
    ensures ParseChars(Escape(s) + "\"" + rest) == Some((s, rest))
  {
    if s == [] {
      assert Escape(s) + "\"" + rest == "\"" + rest;
    } else {
      ParseEscape(s[1..], rest);
      assert Escape(s) + "\"" + rest == EscapeChar(s[0]) + (Escape(s[1..]) + "\"" + rest);
      ParseEscapeChar(s[0], Escape(s[1..]) + "\"" + rest);
      assert s == [s[0]] + s[1..];
    }
  }

  /** Reading one literal of a list, followed by `tail`. */
  lemma ParseItemsStep(x: string, tail: string)
    requires tail == "]" || (tail != [] && tail[0] == ',')
    ensures ParseItems(Quote(x) + tail) ==
      if tail == "]" then Some([x])
      else match ParseItems(tail[1..])
        case None => None
        case Some(ys) => Some([x] + ys)
  {
    var s := Quote(x) + tail;
    assert s[1..] == Escape(x) + "\"" + tail;
    ParseEscape(x, tail);
    assert |tail| < |s|;
  }

  lemma {:induction false} ParseItemsRoundTrip(xs: seq<string>)
    requires xs != []
    ensures ParseItems(Items(xs)) == Some(xs)
  {
    if |xs| == 1 {
      assert Items(xs) == Quote(xs[0]) + "]";
      ParseItemsStep(xs[0], "]");
      assert xs == [xs[0]];
    } else {
      assert Items(xs) == Quote(xs[0]) + ("," + Items(xs[1..]));
      ParseItemsStep(xs[0], "," + Items(xs[1..]));
      ParseItemsRoundTrip(xs[1..]);
      assert ("," + Items(xs[1..]))[1..] == Items(xs[1..]);
      assert xs == [xs[0]] + xs[1..];
    }
  }

  /** Every list of strings survives storage: `JSON.parse(JSON.stringify(xs))` is `xs`. */
  lemma RoundTrip(xs: seq<string>)
    ensures Decode(Encode(xs)) == Some(xs)
  {
    if xs != [] {
      var e := Encode(xs);
      assert e[1..] == Items(xs);
      ParseItemsRoundTrip(xs);
      assert e != "[]" by {
        assert e[1] == '"';
      }
    }
  }
}
