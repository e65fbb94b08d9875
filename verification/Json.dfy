/** JSON documents and their text (RFC 8259), as the Go encoder prints them and the Go decoder reads
    them. A document is a tree; its object members keep their order and may repeat a key. */
module Json {
  import opened Common

  datatype Json =
    | JNull
    | JBool(b: bool)
    | JNum(text: string)
    | JStr(s: string)
    | JArr(items: seq<Json>)
    | JObj(members: seq<Member>)

  datatype Member = Member(key: string, value: Json)

  /** The outcome of reading a prefix of a text. */
  datatype Parsed<+T> = Fail | Ok(value: T, rest: string)

  // ----- Characters -----

  predicate IsWs(c: char) {
    c == ' ' || c == '\t' || c == '\n' || c == '\r'
  }

  function SkipWs(s: string): (r: string)
    ensures |r| <= |s|
  {
    if s != "" && IsWs(s[0]) then SkipWs(s[1..]) else s
  }

  predicate IsDigit(c: char) {
    '0' <= c <= '9'
  }

  predicate IsHex(c: char) {
    IsDigit(c) || 'a' <= c <= 'f' || 'A' <= c <= 'F'
  }

  function HexValue(c: char): (n: nat)
    requires IsHex(c)
    ensures n < 16
  {
    if IsDigit(c) then c as int - '0' as int
    else if 'a' <= c then c as int - 'a' as int + 10
    else c as int - 'A' as int + 10
  }

  function HexDigit(n: nat): (c: char)
    requires n < 16
    ensures IsHex(c) && HexValue(c) == n
  {
    "0123456789abcdef"[n]
  }

  predicate IsHex4(s: string) {
    |s| >= 4 && IsHex(s[0]) && IsHex(s[1]) && IsHex(s[2]) && IsHex(s[3])
  }

  function Hex4Value(s: string): (n: nat)
    requires IsHex4(s)
    ensures n < 0x10000
  {
    HexValue(s[0]) * 4096 + HexValue(s[1]) * 256 + HexValue(s[2]) * 16 + HexValue(s[3])
  }

  function Hex4(n: nat): (s: string)
    requires n < 0x10000
    ensures |s| == 4 && IsHex4(s) && Hex4Value(s) == n
  {
    var a := n / 16;
    var b := a / 16;
    [HexDigit(b / 16), HexDigit(b % 16), HexDigit(a % 16), HexDigit(n % 16)]
  }

  // ----- Printing -----

  predicate HtmlSpecial(c: char) {
    c == '<' || c == '>' || c == '&'
  }

  /** The letter of the two-character escapes of section 7 of RFC 8259 that the encoder uses. */
  function EscapeLetter(c: char): Option<char> {
    if c == '\"' || c == '\\' then Some(c)
    else if c == '\U{8}' then Some('b')
    else if c == '\U{C}' then Some('f')
    else if c == '\n' then Some('n')
    else if c == '\r' then Some('r')
    else if c == '\t' then Some('t')
    else None
  }

  /** The character such a letter stands for; the decoder also knows the escaped solidus. */
  function LetterChar(e: char): Option<char> {
    if e == '\"' || e == '\\' || e == '/' then Some(e)
    else if e == 'b' then Some('\U{8}')
    else if e == 'f' then Some('\U{C}')
    else if e == 'n' then Some('\n')
    else if e == 'r' then Some('\r')
    else if e == 't' then Some('\t')
    else None
  }

  /** The characters the encoder writes as a code point: the other control characters, the line and
      paragraph separators, and the HTML characters when the encoder escapes HTML. */
  predicate NeedsCode(c: char, html: bool) {
    c < ' ' || c == '\U{2028}' || c == '\U{2029}' || (html && HtmlSpecial(c))
  }

  function EscapeChar(c: char, html: bool): string {
    if EscapeLetter(c).Some? then ['\\', EscapeLetter(c).value]
    else if NeedsCode(c, html) then ['\\', 'u'] + Hex4(c as int)
    else [c]
  }

  function Escape(s: string, html: bool): string {
    if s == "" then "" else EscapeChar(s[0], html) + Escape(s[1..], html)
  }

  function Quote(s: string, html: bool): string {
    "\"" + Escape(s, html) + "\""
  }

  /** Compact text without HTML escaping (marshalCompactJSON). */
  function Print(j: Json): string
    decreases j, 1
  {
    match j
    case JNull => "null"
    case JBool(b) => if b then "true" else "false"
    case JNum(text) => text
    case JStr(s) => Quote(s, false)
    case JArr(items) => if items == [] then "[]" else "[" + PrintItems(items) + "]"
    case JObj(members) => if members == [] then "{}" else "{" + PrintMembers(members) + "}"
  }

  function PrintItems(items: seq<Json>): string
    requires items != []
    decreases items, 0
  {
    Print(items[0]) + (if |items| == 1 then "" else "," + PrintItems(items[1..]))
  }

  function PrintMembers(members: seq<Member>): string
    requires members != []
    decreases members, 0
  {
    Quote(members[0].key, false) + ":" + Print(members[0].value) +
    (if |members| == 1 then "" else "," + PrintMembers(members[1..]))
  }

  // ----- Numbers -----

  function DigitsLen(t: string): (n: nat)
    ensures n <= |t|
  {
    if t != "" && IsDigit(t[0]) then 1 + DigitsLen(t[1..]) else 0
  }

  predicate IsExponent(t: string) {
    t == "" ||
    ((t[0] == 'e' || t[0] == 'E') &&
     var u := if |t| > 1 && (t[1] == '+' || t[1] == '-') then t[2..] else t[1..];
     u != "" && DigitsLen(u) == |u|)
  }

  predicate IsFraction(t: string) {
    if t != "" && t[0] == '.' then
      var n := DigitsLen(t[1..]);
      n > 0 && IsExponent(t[1 + n..])
    else IsExponent(t)
  }

  /** Section 6 of RFC 8259. */
  predicate IsNumber(t: string) {
    var u := if t != "" && t[0] == '-' then t[1..] else t;
    var n := DigitsLen(u);
    n > 0 && (u[0] == '0' ==> n == 1) && IsFraction(u[n..])
  }

  predicate NumChar(c: char) {
    IsDigit(c) || c == '+' || c == '-' || c == '.' || c == 'e' || c == 'E'
  }

  function NumLen(s: string): (n: nat)
    ensures n <= |s|
  {
    if s != "" && NumChar(s[0]) then 1 + NumLen(s[1..]) else 0
  }

  // ----- Parsing -----

  predicate HighSurrogate(n: int) {
    0xD800 <= n < 0xDC00
  }

  predicate LowSurrogate(n: int) {
    0xDC00 <= n < 0xE000
  }

  /** Whether the text starts with an escape of the low half of a surrogate pair. */
  predicate LowEscape(s: string) {
    |s| >= 6 && s[0] == '\\' && s[1] == 'u' && IsHex4(s[2..]) && LowSurrogate(Hex4Value(s[2..]))
  }

  /** The character after a backslash. A surrogate pair is one character; half a pair alone decodes to
      the replacement character. */
  function ParseEscape(s: string): (r: Parsed<char>)
    ensures r.Ok? ==> |r.rest| < |s|
  {
    if s == "" then Fail
    else if LetterChar(s[0]).Some? then Ok(LetterChar(s[0]).value, s[1..])
    else if s[0] == 'u' && IsHex4(s[1..]) then
      var n := Hex4Value(s[1..]);
      if HighSurrogate(n) && LowEscape(s[5..]) then
        Ok((0x10000 + (n - 0xD800) * 0x400 + (Hex4Value(s[7..]) - 0xDC00)) as char, s[11..])
      else if HighSurrogate(n) || LowSurrogate(n) then Ok('\U{FFFD}', s[5..])
      else Ok(n as char, s[5..])
    else Fail
  }

  function ParseChar(s: string): (r: Parsed<char>)
    ensures r.Ok? ==> |r.rest| < |s|
  {
    if s == "" || s[0] < ' ' then Fail
    else if s[0] == '\\' then ParseEscape(s[1..])
    else Ok(s[0], s[1..])
  }

  /** The rest of a string after its opening quote. */
  function ParseStr(s: string): (r: Parsed<string>)
    ensures r.Ok? ==> |r.rest| + |r.value| < |s|
  {
    if s == "" then Fail
    else if s[0] == '\"' then Ok("", s[1..])
    else
      match ParseChar(s)
      case Fail => Fail
      case Ok(c, t) =>
        match ParseStr(t)
        case Fail => Fail
        case Ok(v, r) => Ok([c] + v, r)
  }

  function ParseValue(s: string): (r: Parsed<Json>)
    ensures r.Ok? ==> |r.rest| < |s|
    decreases |s|, 0
  {
    var t := SkipWs(s);
    if t == "" then Fail
    else if t[0] == '\"' then
      match ParseStr(t[1..])
      case Fail => Fail
      case Ok(v, r) => Ok(JStr(v), r)
    else if t[0] == '[' then
      var u := SkipWs(t[1..]);
      if u != "" && u[0] == ']' then Ok(JArr([]), u[1..])
      else
        match ParseItems(t[1..])
        case Fail => Fail
        case Ok(v, r) => Ok(JArr(v), r)
    else if t[0] == '{' then
      var u := SkipWs(t[1..]);
      if u != "" && u[0] == '}' then Ok(JObj([]), u[1..])
      else
        match ParseMembers(t[1..])
        case Fail => Fail
        case Ok(v, r) => Ok(JObj(v), r)
    else if "true" <= t then Ok(JBool(true), t[4..])
    else if "false" <= t then Ok(JBool(false), t[5..])
    else if "null" <= t then Ok(JNull, t[4..])
    else
      var n := NumLen(t);
      if IsNumber(t[..n]) then Ok(JNum(t[..n]), t[n..]) else Fail
  }

  /** One or more values and the closing bracket. */
  function ParseItems(s: string): (r: Parsed<seq<Json>>)
    ensures r.Ok? ==> |r.rest| < |s| && r.value != []
    decreases |s|, 1
  {
    match ParseValue(s)
    case Fail => Fail
    case Ok(v, r) =>
      var t := SkipWs(r);
      if t == "" then Fail
      else if t[0] == ']' then Ok([v], t[1..])
      else if t[0] == ',' then
        match ParseItems(t[1..])
        case Fail => Fail
        case Ok(vs, rest) => Ok([v] + vs, rest)
      else Fail
  }

  /** A key and the colon after it. */
  function ParseKey(s: string): (r: Parsed<string>)
    ensures r.Ok? ==> |r.rest| < |s|
  {
    var t := SkipWs(s);
    if t == "" || t[0] != '\"' then Fail
    else
      match ParseStr(t[1..])
      case Fail => Fail
      case Ok(k, r) =>
        var u := SkipWs(r);
        if u != "" && u[0] == ':' then Ok(k, u[1..]) else Fail
  }

  /** One or more members and the closing brace. */
  function ParseMembers(s: string): (r: Parsed<seq<Member>>)
    ensures r.Ok? ==> |r.rest| < |s| && r.value != []
    decreases |s|, 1
  {
    match ParseKey(s)
    case Fail => Fail
    case Ok(k, u) =>
      match ParseValue(u)
      case Fail => Fail
      case Ok(v, r) =>
        var t := SkipWs(r);
        if t == "" then Fail
        else if t[0] == '}' then Ok([Member(k, v)], t[1..])
        else if t[0] == ',' then
          match ParseMembers(t[1..])
          case Fail => Fail
          case Ok(ms, rest) => Ok([Member(k, v)] + ms, rest)
        else Fail
  }

  /** A whole text: one value and nothing but white space after it (json.Valid, json.Unmarshal). */
  function ParseText(s: string): Option<Json> {
    match ParseValue(s)
    case Fail => None
    case Ok(v, r) => if SkipWs(r) == "" then Some(v) else None
  }
}
