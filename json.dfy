/** The JSON text of the session record the Login page stores under the "user" key, and
    the part of JSON.parse the Profile page needs to read it back. */
module Json {
  import opened Common

  /** The object `{ email, name }` the Login page stores. */
  datatype UserRecord = UserRecord(email: string, name: string)

  /** The object the Profile page obtains from JSON.parse: either field may be absent. */
  datatype UserObject = UserObject(email: Option<string>, name: Option<string>)

  /** A lower-case hexadecimal digit, as JSON.stringify writes them. */
  function HexDigit(n: nat): (c: char)
    requires n < 16
    ensures HexValue(c) == Some(n)
  {
    if n < 10 then ('0' as int + n) as char else ('a' as int + n - 10) as char
  }

  /** The value of a hexadecimal digit of either case, as JSON.parse reads them. */
  function HexValue(c: char): (r: Option<nat>)
    ensures r.Some? ==> r.value < 16
  {
    if '0' <= c <= '9' then Some(c as int - '0' as int)
    else if 'a' <= c <= 'f' then Some(c as int - 'a' as int + 10)
    else if 'A' <= c <= 'F' then Some(c as int - 'A' as int + 10)
    else None
  }

  /** JSON.stringify's escaping of one character inside a string literal: the quote, the
      backslash and the control characters below U+0020 are escaped, the short forms
      \b \f \n \r \t where they exist and \u00XX otherwise; every other character is kept. */
  function EscapeChar(c: char): (e: string) {
    if c == '"' then ['\\', '"']
    else if c == '\\' then ['\\', '\\']
    else if c as int == 0x08 then ['\\', 'b']
    else if c as int == 0x0c then ['\\', 'f']
    else if c == '\n' then ['\\', 'n']
    else if c == '\r' then ['\\', 'r']
    else if c == '\t' then ['\\', 't']
    else if c as int < 0x20 then ['\\', 'u', '0', '0', HexDigit(c as int / 16), HexDigit(c as int % 16)]
    else [c]
  }

  function Escape(s: string): (e: string) {
    if s == [] then [] else EscapeChar(s[0]) + Escape(s[1..])
  }

  /** JSON.stringify({ email, name }): keys in that order, no whitespace. */
  function Stringify(u: UserRecord): (text: string) {
    EmailKey + Escape(u.email) + "\"" + NameKey + Escape(u.name) + "\"}"
  }

  /** The value of four hexadecimal digits, as in a \uXXXX escape. */
  function Hex4(a: char, b: char, c: char, d: char): (r: Option<nat>)
    ensures r.Some? ==> r.value < 0x10000
    ensures r.Some? <==> HexValue(a).Some? && HexValue(b).Some? && HexValue(c).Some? && HexValue(d).Some?
  {
    match (HexValue(a), HexValue(b), HexValue(c), HexValue(d))
    case (Some(x), Some(y), Some(z), Some(w)) => Some(4096 * x + 256 * y + 16 * z + w)
    case _ => None
  }

  /** The code point a UTF-16 surrogate pair stands for. */
  function Combine(high: nat, low: nat): (c: char)
    requires 0xd800 <= high < 0xdc00 && 0xdc00 <= low < 0xe000
    ensures 0x10000 <= c as int < 0x110000
    ensures c as int == 0x10000 + (high - 0xd800) * 0x400 + (low - 0xdc00)
  {
    (0x10000 + (high - 0xd800) * 0x400 + (low - 0xdc00)) as char
  }

  /** The character a \u escape stands for, given the text after its u, together with the
      text that follows the escape. A high surrogate must be followed by a \u escape of a
      low one, and the pair stands for one character beyond U+FFFF; a surrogate on its own
      gives None. */
  function UnicodeEscape(t: string): (r: Option<(char, string)>)
    requires |t| >= 4
    ensures r.Some? ==> |r.value.1| <= |t| - 4
  {
    match Hex4(t[0], t[1], t[2], t[3])
    case Some(v) =>
      if v < 0xd800 || 0xe000 <= v then Some((v as char, t[4..]))
      else if v < 0xdc00 && |t| >= 10 && t[4] == '\\' && t[5] == 'u' then
        match Hex4(t[6], t[7], t[8], t[9])
        case Some(low) =>
          if 0xdc00 <= low < 0xe000 then Some((Combine(v, low), t[10..])) else None
        case None => None
      else None
    case None => None
  }

  /** The character an escape sequence stands for, given the text after its backslash,
      together with the text that follows the escape. */
  function Unescape(t: string): (r: Option<(char, string)>)
    ensures r.Some? ==> |r.value.1| < |t|
  {
    if t == [] then None
    else if t[0] == '"' || t[0] == '\\' || t[0] == '/' then Some((t[0], t[1..]))
    else if t[0] == 'b' then Some((0x08 as char, t[1..]))
    else if t[0] == 'f' then Some((0x0c as char, t[1..]))
    else if t[0] == 'n' then Some(('\n', t[1..]))
    else if t[0] == 'r' then Some(('\r', t[1..]))
    else if t[0] == 't' then Some(('\t', t[1..]))
    else if t[0] == 'u' && |t| >= 5 then UnicodeEscape(t[1..])
    else None
  }

  function Prepend(c: char, r: Option<(string, string)>): (p: Option<(string, string)>) {
    match r
    case Some((text, rest)) => Some(([c] + text, rest))
    case None => None
  }

  /** JSON.parse of the body of a string literal (the text after its opening quote): the
      decoded text and what follows the closing quote, or None if the literal is malformed. */
  function ParseStringBody(t: string): (r: Option<(string, string)>)
    decreases |t|
  {
    if t == [] then None
    else if t[0] == '"' then Some(([], t[1..]))
    else if t[0] == '\\' then
      match Unescape(t[1..])
      case Some((c, rest)) => Prepend(c, ParseStringBody(rest))
      case None => None
    else if t[0] as int < 0x20 then None
    else Prepend(t[0], ParseStringBody(t[1..]))
  }

  const EmailKey: string := "{\"email\":\""
  const NameKey: string := ",\"name\":\""

  /** JSON.parse restricted to two shapes: the empty object "{}", and an object with the
      key email and then the key name, both holding strings, written without whitespace.
      The string bodies may use every JSON escape; a lone surrogate escape gives None.
      Any other text (whitespace, other key orders or keys, other value types) gives None. */
  function ParseUserObject(text: string): (r: Option<UserObject>) {
    if text == "{}" then Some(UserObject(None, None))
    else if |text| >= |EmailKey| && text[..|EmailKey|] == EmailKey then
      match ParseStringBody(text[|EmailKey|..])
      case Some((email, rest)) =>
        if |rest| >= |NameKey| && rest[..|NameKey|] == NameKey then
          match ParseStringBody(rest[|NameKey|..])
          case Some((name, tail)) =>
            if tail == "}" then Some(UserObject(Some(email), Some(name))) else None
          case None => None
        else None
      case None => None
    else None
  }

  // ---------------------------------------------------------------------------------------
  // JSON.parse inverts JSON.stringify on the stored record

  lemma EscapeCharParses(c: char, t: string)
    ensures ParseStringBody(EscapeChar(c) + t) == Prepend(c, ParseStringBody(t))
  {
    var e := EscapeChar(c);
    var n := c as int;
    if c == '"' || c == '\\' || n == 0x08 || n == 0x0c || c == '\n' || c == '\r' || c == '\t' {
      assert (e + t)[1..] == [e[1]] + t;
      assert ([e[1]] + t)[1..] == t;
    } else if n < 0x20 {
      var u := ['u', '0', '0', HexDigit(n / 16), HexDigit(n % 16)] + t;
      assert (e + t)[1..] == u;
      assert u[5..] == t;
      assert Unescape(u) == Some((c, t));
    } else {
      assert (e + t)[1..] == t;
    }
  }

  /** Reading an escaped literal back gives the original text and the rest of the input. */
  lemma {:induction false} ParseEscaped(s: string, rest: string)
    ensures ParseStringBody(Escape(s) + "\"" + rest) == Some((s, rest))
  {
    if s == [] {
      assert Escape(s) + "\"" + rest == "\"" + rest;
    } else {
      var t := Escape(s[1..]) + "\"" + rest;
      assert Escape(s) + "\"" + rest == EscapeChar(s[0]) + t;
      ParseEscaped(s[1..], rest);
      EscapeCharParses(s[0], t);
      assert [s[0]] + s[1..] == s;
    }
  }

  lemma EmailFieldParses(u: UserRecord)
    ensures |Stringify(u)| >= |EmailKey| && Stringify(u)[..|EmailKey|] == EmailKey
    ensures ParseStringBody(Stringify(u)[|EmailKey|..]) == Some((u.email, NameKey + Escape(u.name) + "\"}"))
  {
    var nameTail := NameKey + Escape(u.name) + "\"}";
    var text := Stringify(u);
    assert text == EmailKey + (Escape(u.email) + "\"" + nameTail);
    assert text[|EmailKey|..] == Escape(u.email) + "\"" + nameTail;
    ParseEscaped(u.email, nameTail);
  }

  lemma NameFieldParses(name: string)
    ensures (NameKey + Escape(name) + "\"}")[..|NameKey|] == NameKey
    ensures ParseStringBody((NameKey + Escape(name) + "\"}")[|NameKey|..]) == Some((name, "}"))
  {
    var nameTail := NameKey + Escape(name) + "\"}";
    assert nameTail[|NameKey|..] == Escape(name) + "\"" + "}";
    ParseEscaped(name, "}");
  }

  /** The Profile page reads back exactly the email and name the Login page stored. */
  lemma ParseStringify(u: UserRecord)
    ensures ParseUserObject(Stringify(u)) == Some(UserObject(Some(u.email), Some(u.name)))
  {
    EmailFieldParses(u);
    NameFieldParses(u.name);
    assert |Stringify(u)| > 2;
  }

  /** A literal made of one escape and the closing quote reads as that one character. */
  lemma OneEscapeRead(t: string, c: char)
    requires |t| > 1 && t[0] == '\\' && Unescape(t[1..]) == Some((c, "\""))
    ensures ParseStringBody(t) == Some(([c], ""))
  {
    assert ParseStringBody("\"") == Some(([], ""));
    assert [c] + [] == [c];
  }

  /** Escapes the pages never write are still read as JSON.parse reads them: \/ and
      hexadecimal digits of either case. */
  lemma OtherEscapesRead()
    ensures ParseStringBody("\\/\"") == Some(("/", ""))
    ensures ParseStringBody("\\u004A\"") == Some(("J", ""))
    ensures ParseStringBody("\\u004a\"") == Some(("J", ""))
  {
    var slash, upper, lower := "\\/\"", "\\u004A\"", "\\u004a\"";
    assert slash[1..] == "/\"" && slash[2..] == "\"";
    OneEscapeRead(slash, '/');
    assert upper[1..][5..] == "\"";
    assert Hex4('0', '0', '4', 'A') == Some(0x4a);
    OneEscapeRead(upper, 'J');
    assert lower[1..][5..] == "\"";
    assert Hex4('0', '0', '4', 'a') == Some(0x4a);
    OneEscapeRead(lower, 'J');
  }

  /** A surrogate pair is read as the one character beyond U+FFFF it stands for. */
  lemma SurrogatePairRead()
    ensures ParseStringBody("\\uD83D\\ude00\"") == Some((['\U{1F600}'], ""))
  {
    var t := "\\uD83D\\ude00\"";
    assert Hex4('D', '8', '3', 'D') == Some(0xd83d);
    assert Hex4('d', 'e', '0', '0') == Some(0xde00);
    assert t[1..][11..] == "\"";
    OneEscapeRead(t, '\U{1F600}');
  }

  /** A surrogate escape that is not part of a pair is refused. */
  lemma LoneSurrogateRefused()
    ensures ParseStringBody("\\ud83d\"") == None
    ensures ParseStringBody("\\ude00\"") == None
  {
  }

  /** The stored text is never empty: its first character is the brace. */
  lemma StringifyNonEmpty(u: UserRecord)
    ensures Stringify(u) != "" && Stringify(u)[0] == '{'
  {
  }
}
