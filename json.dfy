/**
 * `JSON.stringify` as applied to a translation record, and a reader for the
 * text it produces.
 *
 * The writer follows ECMAScript's QuoteJSONString: a quotation mark and a
 * backslash are escaped with a backslash, the five control characters that
 * have a short escape use it, every other control character below U+0020
 * becomes `\u00xx` with lower-case hex digits, and every other character is
 * written as it is. The properties come out in the order the object literal
 * declares them: source, translation, langcode.
 */
module Json {
  import opened Wrappers
  import opened Records

  const HexDigits: string := "0123456789abcdef"

  const SourceKey: string := "{\"source\":"
  const TranslationKey: string := ",\"translation\":"
  const LangcodeKey: string := ",\"langcode\":"
  const Close: string := "}"

  /** How one character is written inside a JSON string literal. */
  function EscapeChar(c: char): string
  {
    var n := c as int;
    if c == '"' then ['\\', '"']
    else if c == '\\' then ['\\', '\\']
    else if n == 0x08 then ['\\', 'b']
    else if n == 0x09 then ['\\', 't']
    else if n == 0x0A then ['\\', 'n']
    else if n == 0x0C then ['\\', 'f']
    else if n == 0x0D then ['\\', 'r']
    else if n < 0x20 then ['\\', 'u', '0', '0', HexDigits[n / 16], HexDigits[n % 16]]
    else [c]
  }

  function Escape(s: string): string
  {
    if |s| == 0 then [] else EscapeChar(s[0]) + Escape(s[1..])
  }

  /** A string value as a JSON string literal, quotation marks included. */
  function Quote(s: string): string
  {
    ['"'] + Escape(s) + ['"']
  }

  /** `JSON.stringify({source, translation, langcode})`. */
  function Serialize(r: TranslationRecord): string
  {
    SourceKey + (Quote(r.source) + (TranslationKey + (Quote(r.translation) + (LangcodeKey + (Quote(r.langcode) + Close)))))
  }

  function HexValue(d: char): (v: Option<nat>)
    ensures v.Some? ==> v.value < 16
  {
    if '0' <= d <= '9' then Some(d as int - '0' as int)
    else if 'a' <= d <= 'f' then Some(d as int - 'a' as int + 10)
    else if 'A' <= d <= 'F' then Some(d as int - 'A' as int + 10)
    else None
  }

  /**
   * Reads the escape sequence that follows a backslash: the character it
   * stands for and how many characters it takes up. A `\u` escape that
   * names a surrogate code unit is refused.
   */
  function UnescapeOne(t: string): (r: Option<(char, nat)>)
    ensures r.Some? ==> 1 <= r.value.1 <= |t|
  {
    if |t| == 0 then None
    else if t[0] == '"' then Some(('"', 1))
    else if t[0] == '\\' then Some(('\\', 1))
    else if t[0] == '/' then Some(('/', 1))
    else if t[0] == 'b' then Some((0x08 as char, 1))
    else if t[0] == 't' then Some((0x09 as char, 1))
    else if t[0] == 'n' then Some((0x0A as char, 1))
    else if t[0] == 'f' then Some((0x0C as char, 1))
    else if t[0] == 'r' then Some((0x0D as char, 1))
    else if t[0] == 'u' && |t| >= 5 then
      var h0 :- HexValue(t[1]);
      var h1 :- HexValue(t[2]);
      var h2 :- HexValue(t[3]);
      var h3 :- HexValue(t[4]);
      var code := ((h0 * 16 + h1) * 16 + h2) * 16 + h3;
      if 0xD800 <= code < 0xE000 then None else Some((code as char, 5))
    else None
  }

  /**
   * Reads the body of a string literal up to its closing quotation mark.
   * Gives the decoded value and the text after the closing mark.
   */
  function Unescape(s: string): (r: Option<(string, string)>)
    ensures r.Some? ==> |r.value.1| < |s|
    decreases |s|
  {
    if |s| == 0 then None
    else if s[0] == '"' then Some(([], s[1..]))
    else if s[0] == '\\' then
      match UnescapeOne(s[1..])
      case None => None
      case Some(e) =>
        match Unescape(s[1 + e.1..])
        case None => None
        case Some(p) => Some(([e.0] + p.0, p.1))
    else if (s[0] as int) < 0x20 then None
    else
      match Unescape(s[1..])
      case None => None
      case Some(p) => Some(([s[0]] + p.0, p.1))
  }

  /** Reads one string literal at the start of `s`. */
  function ParseString(s: string): Option<(string, string)>
  {
    if |s| > 0 && s[0] == '"' then Unescape(s[1..]) else None
  }

  /** Consumes the literal text `lit` at the start of `s`. */
  function Expect(lit: string, s: string): Option<string>
  {
    if |lit| <= |s| && s[..|lit|] == lit then Some(s[|lit|..]) else None
  }

  /**
   * Reads a record in the layout that `Serialize` writes: the three keys in
   * that order and no whitespace. Inside the string literals it accepts
   * every JSON escape, not only the ones `Serialize` writes (`\/`,
   * upper-case hex digits, `\uXXXX` for any non-surrogate character), so
   * several texts can read as the same record; `RoundTrip` and
   * `SerializeInjective` are about the writer's own text.
   */
  function Deserialize(s: string): Option<TranslationRecord>
  {
    var s1 :- Expect(SourceKey, s);
    var p1 :- ParseString(s1);
    var s2 :- Expect(TranslationKey, p1.1);
    var p2 :- ParseString(s2);
    var s3 :- Expect(LangcodeKey, p2.1);
    var p3 :- ParseString(s3);
    var s4 :- Expect(Close, p3.1);
    if s4 == [] then Some(TranslationRecord(p1.0, p2.0, p3.0)) else None
  }

  lemma HexDigitRoundTrip(k: nat)
    requires k < 16
    ensures HexValue(HexDigits[k]) == Some(k)
  {
  }

  /** What `Unescape` gives for a character followed by `t`, in terms of what it gives for `t`. */
  function Prepend(c: char, r: Option<(string, string)>): Option<(string, string)>
  {
    match r
    case None => None
    case Some(p) => Some(([c] + p.0, p.1))
  }

  lemma UnescapeShortEscape(c: char, t: string)
    requires c == '"' || c == '\\' || c as int in {0x08, 0x09, 0x0A, 0x0C, 0x0D}
    ensures Unescape(EscapeChar(c) + t) == Prepend(c, Unescape(t))
  {
    var s := EscapeChar(c) + t;
    assert |EscapeChar(c)| == 2 && s[0] == '\\';
    assert UnescapeOne(s[1..]) == Some((c, 1));
    assert s[2..] == t;
  }

  lemma UnescapeUnicodeEscape(c: char, t: string)
    requires c as int < 0x20 && c as int !in {0x08, 0x09, 0x0A, 0x0C, 0x0D}
    ensures Unescape(EscapeChar(c) + t) == Prepend(c, Unescape(t))
  {
    var n := c as int;
    var s := EscapeChar(c) + t;
    var hi, lo := HexDigits[n / 16], HexDigits[n % 16];
    assert EscapeChar(c) == ['\\', 'u', '0', '0', hi, lo];
    HexDigitRoundTrip(0);
    HexDigitRoundTrip(n / 16);
    HexDigitRoundTrip(n % 16);
    var u := s[1..];
    assert u[0] == 'u' && u[1] == '0' && u[2] == '0' && u[3] == hi && u[4] == lo;
    assert UnescapeOne(u) == Some((c, 5));
    assert s[6..] == t;
  }

  /** Decoding an escaped character gives the character back and leaves what follows it. */
  lemma UnescapeEscapeChar(c: char, t: string)
    ensures Unescape(EscapeChar(c) + t) == Prepend(c, Unescape(t))
  {
    if c == '"' || c == '\\' || c as int in {0x08, 0x09, 0x0A, 0x0C, 0x0D} {
      UnescapeShortEscape(c, t);
    } else if c as int < 0x20 {
      UnescapeUnicodeEscape(c, t);
    } else {
      assert (EscapeChar(c) + t)[1..] == t;
    }
  }

  lemma {:induction false} UnescapeEscape(x: string, rest: string)
    ensures Unescape(Escape(x) + ['"'] + rest) == Some((x, rest))
  {
    if |x| == 0 {
      assert Escape(x) + ['"'] + rest == ['"'] + rest;
    } else {
      var tail := Escape(x[1..]) + ['"'] + rest;
      assert Escape(x) + ['"'] + rest == EscapeChar(x[0]) + tail;
      UnescapeEscape(x[1..], rest);
      UnescapeEscapeChar(x[0], tail);
      assert [x[0]] + x[1..] == x;
    }
  }

  /** A quoted value followed by any text reads back as the value and that text. */
  lemma ParseQuote(x: string, rest: string)
    ensures ParseString(Quote(x) + rest) == Some((x, rest))
  {
    assert (Quote(x) + rest)[1..] == Escape(x) + ['"'] + rest;
    UnescapeEscape(x, rest);
  }

  lemma ExpectPrefix(lit: string, rest: string)
    ensures Expect(lit, lit + rest) == Some(rest)
  {
    assert (lit + rest)[..|lit|] == lit;
    assert (lit + rest)[|lit|..] == rest;
  }

  /**
   * The reader applied to the writer's layout, with the three string
   * literals left abstract: only what `ParseString` makes of them matters.
   */
  lemma DeserializeLayout(r: TranslationRecord, q1: string, q2: string, q3: string)
    requires ParseString(q1 + (TranslationKey + (q2 + (LangcodeKey + (q3 + Close))))) ==
             Some((r.source, TranslationKey + (q2 + (LangcodeKey + (q3 + Close)))))
    requires ParseString(q2 + (LangcodeKey + (q3 + Close))) == Some((r.translation, LangcodeKey + (q3 + Close)))
    requires ParseString(q3 + Close) == Some((r.langcode, Close))
    ensures Deserialize(SourceKey + (q1 + (TranslationKey + (q2 + (LangcodeKey + (q3 + Close)))))) == Some(r)
  {
    var t2 := q2 + (LangcodeKey + (q3 + Close));
    var t1 := q1 + (TranslationKey + t2);
    ExpectPrefix(SourceKey, t1);
    ExpectPrefix(TranslationKey, t2);
    ExpectPrefix(LangcodeKey, q3 + Close);
    ExpectPrefix(Close, []);
    assert Close + [] == Close;
  }

  /** Reading the serialised record gives back exactly its three fields. */
  lemma RoundTrip(r: TranslationRecord)
    ensures Deserialize(Serialize(r)) == Some(r)
  {
    var q1, q2, q3 := Quote(r.source), Quote(r.translation), Quote(r.langcode);
    ParseQuote(r.source, TranslationKey + (q2 + (LangcodeKey + (q3 + Close))));
    ParseQuote(r.translation, LangcodeKey + (q3 + Close));
    ParseQuote(r.langcode, Close);
    DeserializeLayout(r, q1, q2, q3);
  }

  /** Distinct records serialise to distinct text. */
  lemma SerializeInjective(a: TranslationRecord, b: TranslationRecord)
    requires Serialize(a) == Serialize(b)
    ensures a == b
  {
    RoundTrip(a);
    RoundTrip(b);
  }
}
