/** The grammar of RFC 8259, as a relation between texts and documents, and that the decoder reads exactly it. */
module JsonGrammar {
  import opened Common
  import opened Json
  import opened JsonText
  import opened JsonLocality
  import opened JsonNumbers
  import Numbers
  import RawJson

  // ----- Tokens -----

  /** s is the token and then r. */
  predicate Token(s: string, token: string, r: string) {
    s == token + r
  }

  predicate BlankText(w: string) {
    forall i :: 0 <= i < |w| ==> w[i] == ' ' || w[i] == '\t' || w[i] == '\n' || w[i] == '\r'
  }

  /** s is white space, perhaps none, and then r. */
  ghost predicate Blanks(s: string, r: string) {
    exists w: string :: BlankText(w) && s == w + r
  }

  /** Section 6: no zero before other digits, and digits behind a point. */
  ghost predicate NumberText(t: string) {
    exists w: Written :: Spells(t, w) && (w.whole[0] == '0' ==> |w.whole| == 1)
  }

  // ----- Strings -----

  predicate HexMeans(c: char, n: nat) {
    ('0' <= c <= '9' && n == c as int - '0' as int) || ('a' <= c <= 'f' && n == c as int - 'a' as int + 10) ||
    ('A' <= c <= 'F' && n == c as int - 'A' as int + 10)
  }

  ghost predicate CodeMeans(h: string, n: nat) {
    |h| == 4 && exists a: nat, b: nat, c: nat, d: nat ::
      HexMeans(h[0], a) && HexMeans(h[1], b) && HexMeans(h[2], c) && HexMeans(h[3], d) &&
      n == 4096 * a + 256 * b + 16 * c + d
  }

  /** The two-character escapes of section 7. */
  predicate LetterMeans(e: char, c: char) {
    (e == '\"' && c == '\"') || (e == '\\' && c == '\\') || (e == '/' && c == '/') || (e == 'b' && c == '\U{8}') ||
    (e == 'f' && c == '\U{C}') || (e == 'n' && c == '\n') || (e == 'r' && c == '\r') || (e == 't' && c == '\t')
  }

  predicate High(n: nat) {
    0xD800 <= n <= 0xDBFF
  }

  predicate Low(n: nat) {
    0xDC00 <= n <= 0xDFFF
  }

  ghost predicate Code(s: string, n: nat, r: string) {
    exists h: string :: CodeMeans(h, n) && s == ['\\', 'u'] + h + r
  }

  /** s is one character of a string and then r: itself, an escape, a pair of surrogates, or one surrogate of no
      pair, which stands for the replacement character. */
  ghost predicate Char(s: string, c: char, r: string) {
    || (s == [c] + r && c >= ' ' && c != '\"' && c != '\\')
    || (exists e: char :: LetterMeans(e, c) && s == ['\\', e] + r)
    || (exists n: nat :: Code(s, n, r) && !High(n) && !Low(n) && c as int == n)
    || (exists n: nat, m: nat, u: string ::
          Code(s, n, u) && Code(u, m, r) && High(n) && Low(m) &&
          c as int == 0x10000 + (n - 0xD800) * 0x400 + (m - 0xDC00))
    || (exists n: nat :: Code(s, n, r) && c == '\U{FFFD}' && (Low(n) || (High(n) && !LowFollows(r))))
  }

  ghost predicate LowFollows(s: string) {
    exists m: nat, u: string :: Low(m) && Code(s, m, u)
  }

  /** s is the characters of v, the closing quote, and then r. */
  ghost predicate Chars(s: string, v: string, r: string)
    decreases |v|
  {
    if v == "" then Token(s, "\"", r) else exists u: string :: Char(s, v[0], u) && Chars(u, v[1..], r)
  }

  // ----- Documents -----

  ghost predicate Value(s: string, j: Json, r: string)
    decreases j, 1
  {
    match j
    case JNull => Token(s, "null", r)
    case JBool(b) => Token(s, if b then "true" else "false", r)
    case JNum(t) => NumberText(t) && Token(s, t, r)
    case JStr(v) => exists u: string :: Token(s, "\"", u) && Chars(u, v, r)
    case JArr(items) =>
      exists u: string :: Token(s, "[", u) &&
        if items == [] then exists v: string :: Blanks(u, v) && Token(v, "]", r) else Items(u, items, r)
    case JObj(ms) =>
      exists u: string :: Token(s, "{", u) &&
        if ms == [] then exists v: string :: Blanks(u, v) && Token(v, "}", r) else Members(u, ms, r)
  }

  /** A value with white space around it. */
  ghost predicate Padded(s: string, j: Json, r: string)
    decreases j, 2
  {
    exists u: string, v: string :: Blanks(s, u) && Value(u, j, v) && Blanks(v, r)
  }

  ghost predicate Items(s: string, items: seq<Json>, r: string)
    requires items != []
    decreases items, 0
  {
    exists u: string :: Padded(s, items[0], u) &&
      if |items| == 1 then Token(u, "]", r) else exists v: string :: Token(u, ",", v) && Items(v, items[1..], r)
  }

  /** A key with white space around it and the colon. */
  ghost predicate Key(s: string, key: string, r: string) {
    exists t: string, u: string, v: string, w: string ::
      Blanks(s, t) && Token(t, "\"", u) && Chars(u, key, v) && Blanks(v, w) && Token(w, ":", r)
  }

  ghost predicate Members(s: string, ms: seq<Member>, r: string)
    requires ms != []
    decreases ms, 0
  {
    exists t: string, u: string :: Key(s, ms[0].key, t) && Padded(t, ms[0].value, u) &&
      if |ms| == 1 then Token(u, "}", r) else exists v: string :: Token(u, ",", v) && Members(v, ms[1..], r)
  }

  // ----- White space -----

  lemma {:induction false} BlanksSkipped(w: string, r: string)
    requires BlankText(w)
    ensures SkipWs(w + r) == SkipWs(r)
  {
    if w == "" {
      assert w + r == r;
    } else {
      assert (w + r)[1..] == w[1..] + r;
      BlanksSkipped(w[1..], r);
    }
  }

  lemma SkipsBlanks(s: string, r: string)
    requires Blanks(s, r)
    ensures SkipWs(s) == SkipWs(r)
  {
    var w: string :| BlankText(w) && s == w + r;
    BlanksSkipped(w, r);
  }

  lemma {:induction false} SkippedBlanks(s: string)
    ensures Blanks(s, SkipWs(s)) && (SkipWs(s) == "" || !IsWs(SkipWs(s)[0]))
  {
    if s != "" && IsWs(s[0]) {
      SkippedBlanks(s[1..]);
      var w: string :| BlankText(w) && s[1..] == w + SkipWs(s[1..]);
      assert BlankText([s[0]] + w) && s == [s[0]] + w + SkipWs(s);
    } else {
      assert BlankText("") && s == "" + s;
    }
  }

  /** What ends with nothing or with a token other than a digit does not go on with a number. */
  lemma EndsNumber(v: string, r: string)
    requires Blanks(v, r) && (r == "" || r[0] == ',' || r[0] == ']' || r[0] == '}')
    ensures Delimited(v)
  {
    var w: string :| BlankText(w) && v == w + r;
    assert w != "" ==> v[0] == w[0];
  }

  // ----- Characters -----

  lemma HexExactly(c: char)
    ensures IsHex(c) <==> exists n: nat :: HexMeans(c, n)
    ensures IsHex(c) ==> forall n: nat :: HexMeans(c, n) <==> n == HexValue(c)
  {
    if IsHex(c) {
      assert HexMeans(c, HexValue(c));
    }
  }

  lemma CodeReads(h: string, n: nat)
    requires CodeMeans(h, n)
    ensures |h| == 4 && IsHex4(h) && Hex4Value(h) == n
  {
    HexExactly(h[0]);
    HexExactly(h[1]);
    HexExactly(h[2]);
    HexExactly(h[3]);
  }

  lemma CodeRead(h: string)
    requires |h| == 4 && IsHex4(h)
    ensures CodeMeans(h, Hex4Value(h))
  {
    HexExactly(h[0]);
    HexExactly(h[1]);
    HexExactly(h[2]);
    HexExactly(h[3]);
    assert HexMeans(h[0], HexValue(h[0])) && HexMeans(h[1], HexValue(h[1])) && HexMeans(h[2], HexValue(h[2])) &&
           HexMeans(h[3], HexValue(h[3]));
  }

  /** An escape of a code point, as the decoder sees it. */
  lemma CodeExactly(s: string, n: nat, r: string)
    ensures Code(s, n, r) <==>
            |s| >= 6 && s[0] == '\\' && s[1] == 'u' && IsHex4(s[2..]) && Hex4Value(s[2..]) == n && r == s[6..]
  {
    hide IsHex, HexValue, CodeMeans;
    if Code(s, n, r) {
      var h: string :| CodeMeans(h, n) && s == ['\\', 'u'] + h + r;
      CodeReads(h, n);
      assert s[2..] == h + r && s[6..] == r && s[2..][..4] == h;
    }
    if |s| >= 6 && s[0] == '\\' && s[1] == 'u' && IsHex4(s[2..]) && Hex4Value(s[2..]) == n && r == s[6..] {
      var h := s[2..6];
      assert h == s[2..][..4] && s == ['\\', 'u'] + h + r;
      CodeRead(h);
    }
  }

  lemma LowExactly(s: string)
    ensures LowFollows(s) <==> LowEscape(s)
  {
    if LowFollows(s) {
      var m: nat, u: string :| Low(m) && Code(s, m, u);
      CodeExactly(s, m, u);
    }
    if LowEscape(s) {
      CodeExactly(s, Hex4Value(s[2..]), s[6..]);
    }
  }

  lemma LettersExactly(e: char, c: char)
    ensures LetterMeans(e, c) <==> LetterChar(e) == Some(c)
  {
  }

  /** What stands for a character is read as it. */
  lemma CharReads(s: string, c: char, r: string)
    requires Char(s, c, r)
    ensures s != "" && s[0] != '\"' && ParseChar(s) == Ok(c, r)
  {
    hide Code, LetterMeans, LetterChar, IsHex4, Hex4Value;
    if s == [c] + r && c >= ' ' && c != '\"' && c != '\\' {
      assert s[1..] == r;
    } else if e: char :| LetterMeans(e, c) && s == ['\\', e] + r {
      LettersExactly(e, c);
      assert s[1..] == [e] + r && s[1..][1..] == r;
    } else if n: nat :| Code(s, n, r) && !High(n) && !Low(n) && c as int == n {
      CodeExactly(s, n, r);
      EscapeOfCode(s);
    } else if n: nat, m: nat, u: string :|
      Code(s, n, u) && Code(u, m, r) && High(n) && Low(m) &&
      c as int == 0x10000 + (n - 0xD800) * 0x400 + (m - 0xDC00) {
      CodeExactly(s, n, u);
      CodeExactly(u, m, r);
      EscapeOfCode(s);
      assert s[6..][2..] == s[8..] && s[6..][6..] == s[12..];
    } else {
      var n: nat :| Code(s, n, r) && c == '\U{FFFD}' && (Low(n) || (High(n) && !LowFollows(r)));
      CodeExactly(s, n, r);
      LowExactly(r);
      EscapeOfCode(s);
    }
  }

  lemma LowLength(s: string)
    requires LowEscape(s)
    ensures |s| >= 6
  {
  }

  /** The escape of a code point is read by its number and by what follows it. */
  lemma EscapeOfCode(s: string)
    requires |s| >= 6 && s[0] == '\\' && s[1] == 'u' && IsHex4(s[2..])
    ensures ParseChar(s) ==
            var n := Hex4Value(s[2..]);
            if HighSurrogate(n) && LowEscape(s[6..]) then
              Ok((0x10000 + (n - 0xD800) * 0x400 + (Hex4Value(s[8..]) - 0xDC00)) as char, s[12..])
            else if HighSurrogate(n) || LowSurrogate(n) then Ok('\U{FFFD}', s[6..])
            else Ok(n as char, s[6..])
  {
    hide IsHex4, Hex4Value, LowEscape;
    assert s[1..][1..] == s[2..] && s[1..][5..] == s[6..];
    if LowEscape(s[6..]) {
      LowLength(s[6..]);
      assert s[1..][7..] == s[8..] && s[1..][11..] == s[12..] && s[6..][2..] == s[8..];
    }
  }

  /** What is read as a character stands for it. */
  lemma CharRead(s: string)
    requires s != "" && s[0] != '\"' && ParseChar(s).Ok?
    ensures Char(s, ParseChar(s).value, ParseChar(s).rest)
  {
    hide Code, LetterMeans, LetterChar, IsHex4, Hex4Value, LowFollows;
    var c, r := ParseChar(s).value, ParseChar(s).rest;
    if s[0] != '\\' {
      assert s == [c] + r;
    } else if LetterChar(s[1]).Some? {
      LettersExactly(s[1], c);
      assert s == ['\\', s[1]] + r;
    } else {
      CodeReadBack(s);
    }
  }

  lemma CodeReadBack(s: string)
    requires |s| >= 2 && s[0] == '\\' && LetterChar(s[1]).None? && ParseChar(s).Ok?
    ensures Char(s, ParseChar(s).value, ParseChar(s).rest)
  {
    hide Code, LetterMeans, LetterChar, Hex4Value, LowFollows, IsHex;
    assert s[1..][1..] == s[2..];
    assert |s| >= 6 && s[1] == 'u' && IsHex4(s[2..]);
    EscapeOfCode(s);
    var n := Hex4Value(s[2..]);
    CodeExactly(s, n, s[6..]);
    LowExactly(s[6..]);
    if High(n) && LowEscape(s[6..]) {
      assert s[6..][2..] == s[8..] && s[6..][6..] == s[12..];
      CodeExactly(s[6..], Hex4Value(s[8..]), s[12..]);
    }
  }

  /** A string is read exactly as it is written. */
  lemma {:induction false} CharsExactly(s: string, v: string, r: string)
    ensures Chars(s, v, r) <==> ParseStr(s) == Ok(v, r)
    decreases |v|
  {
    hide Char, ParseChar;
    if v == "" {
      if Chars(s, v, r) {
        assert s[1..] == r;
      }
      if ParseStr(s) == Ok(v, r) {
        assert s == "\"" + r;
      }
    } else {
      if Chars(s, v, r) {
        var u: string :| Char(s, v[0], u) && Chars(u, v[1..], r);
        CharReads(s, v[0], u);
        CharsExactly(u, v[1..], r);
        assert v == [v[0]] + v[1..];
      }
      if ParseStr(s) == Ok(v, r) {
        CharRead(s);
        var u := ParseChar(s).rest;
        assert v[1..] == ParseStr(u).value;
        CharsExactly(u, v[1..], r);
      }
    }
  }

  // ----- Numbers -----

  lemma {:induction false} DigitsOnly(d: string)
    requires forall i :: 0 <= i < |d| ==> '0' <= d[i] <= '9'
    ensures DigitsLen(d) == |d|
  {
    DigitsFront(d, "");
    assert d + "" == d;
  }

  lemma ExponentText(e: string, x: int)
    requires SpellsExponent(e, x)
    ensures IsExponent(e) && (e == "" || (!IsDigit(e[0]) && e[0] != '.'))
  {
    hide RawJson.Decimal;
    if e != "" {
      var mark: char, sign: string, d: string :| ExponentParts(e, x, mark, sign, d);
      DigitsOnly(d);
      if sign == "" {
        assert e[1..] == d && e[1] == d[0];
      } else {
        assert e[2..] == d && e[1] == sign[0];
      }
    }
  }

  lemma FractionText(fraction: string, e: string, x: int)
    requires Numbers.AllDecimal(fraction) && SpellsExponent(e, x)
    ensures var f := (if fraction == "" then "" else "." + fraction) + e; IsFraction(f) && (f == "" || !IsDigit(f[0]))
  {
    hide IsExponent, SpellsExponent;
    ExponentText(e, x);
    if fraction == "" {
      assert "" + e == e;
    } else {
      var f := "." + fraction + e;
      assert f[1..] == fraction + e;
      DigitsFront(fraction, e);
      assert f[1 + |fraction|..] == e;
    }
  }

  lemma NumberIs(t: string)
    requires NumberText(t)
    ensures IsNumber(t)
  {
    hide IsFraction, SpellsExponent;
    var w: Written :| Spells(t, w) && (w.whole[0] == '0' ==> |w.whole| == 1);
    var e: string :| SpellsExponent(e, w.exponent) &&
      t == (if w.negative then "-" else "") + w.whole + (if w.fraction == "" then "" else "." + w.fraction) + e;
    var point := if w.fraction == "" then "" else "." + w.fraction;
    Grouped(if w.negative then "-" else "", w.whole, point, e);
    FractionText(w.fraction, e, w.exponent);
    UnsignedIs(w.whole, point + e, w.negative);
  }

  lemma UnsignedIs(whole: string, f: string, negative: bool)
    requires whole != "" && Numbers.AllDecimal(whole) && (whole[0] == '0' ==> |whole| == 1)
    requires IsFraction(f) && (f == "" || !IsDigit(f[0]))
    ensures IsNumber((if negative then "-" else "") + (whole + f))
  {
    hide IsFraction;
    var u := whole + f;
    DigitsFront(whole, f);
    assert u[|whole|..] == f;
    assert ("-" + u)[1..] == u && "" + u == u;
  }

  lemma NumberSpelled(t: string)
    requires IsNumber(t)
    ensures NumberText(t)
  {
    hide IsFraction, Spells;
    var w := NumberWritten(t);
    WholePart(t, w);
  }

  lemma WholePart(t: string, w: Written)
    requires IsNumber(t) && Spells(t, w)
    ensures w.whole[0] == '0' ==> |w.whole| == 1
  {
    hide IsFraction, SpellsExponent;
    var e: string :| SpellsExponent(e, w.exponent) &&
      t == (if w.negative then "-" else "") + w.whole + (if w.fraction == "" then "" else "." + w.fraction) + e;
    var point := if w.fraction == "" then "" else "." + w.fraction;
    Grouped(if w.negative then "-" else "", w.whole, point, e);
    FractionText(w.fraction, e, w.exponent);
    DigitsFront(w.whole, point + e);
    if w.negative {
      assert t[1..] == w.whole + (point + e);
    } else {
      assert t == w.whole + (point + e);
    }
  }

  lemma NumbersExactly(t: string)
    ensures NumberText(t) <==> IsNumber(t)
  {
    hide IsNumber, NumberText;
    if NumberText(t) {
      NumberIs(t);
    }
    if IsNumber(t) {
      NumberSpelled(t);
    }
  }

  // ----- What is written is read -----

  predicate Closes(r: string) {
    r == "" || r[0] == ',' || r[0] == ']' || r[0] == '}'
  }

  lemma NotBlank(r: string)
    requires Closes(r)
    ensures SkipWs(r) == r
  {
  }

  lemma {:induction false} ValueReads(s: string, j: Json, r: string)
    requires Value(s, j, r) && Delimited(r)
    ensures ParseValue(s) == Ok(j, r) && s != "" && !IsWs(s[0]) && s[0] != ']' && s[0] != '}'
    decreases j, 1
  {
    hide ParseValue, Chars, NumberText, IsNumber, Items, Members, Delimited, NumChar;
    match j
    case JNull => LiteralValues(r);
    case JBool(b) => LiteralValues(r);
    case JNum(t) =>
      NumbersExactly(t);
      NumberParses(t, r);
      NumberStarts(t, r);
    case JStr(v) =>
      var u: string :| Token(s, "\"", u) && Chars(u, v, r);
      CharsExactly(u, v, r);
      StringValue(u, v, r);
    case JArr(items) => ArrayReads(s, items, r);
    case JObj(ms) => ObjectReads(s, ms, r);
  }

  lemma NumberStarts(t: string, r: string)
    requires IsNumber(t)
    ensures t + r != "" && !IsWs((t + r)[0]) && (t + r)[0] != ']' && (t + r)[0] != '}'
  {
    NumberChars(t);
    assert (t + r)[0] == t[0];
  }

  lemma {:induction false} ArrayReads(s: string, items: seq<Json>, r: string)
    requires Value(s, JArr(items), r)
    ensures ParseValue(s) == Ok(JArr(items), r) && s != "" && s[0] == '['
    decreases items, 2
  {
    hide ParseValue, Items, ParseItems, SkipWs;
    var u: string :| Token(s, "[", u) &&
      if items == [] then exists v: string :: Blanks(u, v) && Token(v, "]", r) else Items(u, items, r);
    if items == [] {
      var v: string :| Blanks(u, v) && Token(v, "]", r);
      SkipsBlanks(u, v);
      EmptyArray(s, u, v, r);
    } else {
      ItemsRead(u, items, r);
      ArrayOpens(s, u, items, r);
    }
  }

  lemma EmptyArray(s: string, u: string, v: string, r: string)
    requires s == "[" + u && SkipWs(u) == SkipWs(v) && v == "]" + r
    ensures ParseValue(s) == Ok(JArr([]), r)
  {
    assert s[1..] == u && v[1..] == r && SkipWs(v) == v && SkipWs(s) == s;
  }

  lemma ArrayOpens(s: string, u: string, items: seq<Json>, r: string)
    requires s == "[" + u && ParseItems(u) == Ok(items, r) && SkipWs(u) != "" && SkipWs(u)[0] != ']'
    ensures ParseValue(s) == Ok(JArr(items), r)
  {
    hide ParseItems;
    assert s[1..] == u && SkipWs(s) == s;
  }

  lemma {:induction false} ObjectReads(s: string, ms: seq<Member>, r: string)
    requires Value(s, JObj(ms), r)
    ensures ParseValue(s) == Ok(JObj(ms), r) && s != "" && s[0] == '{'
    decreases ms, 2
  {
    hide ParseValue, Members, ParseMembers, SkipWs;
    var u: string :| Token(s, "{", u) &&
      if ms == [] then exists v: string :: Blanks(u, v) && Token(v, "}", r) else Members(u, ms, r);
    if ms == [] {
      var v: string :| Blanks(u, v) && Token(v, "}", r);
      SkipsBlanks(u, v);
      EmptyObject(s, u, v, r);
    } else {
      MembersRead(u, ms, r);
      ObjectOpens(s, u, ms, r);
    }
  }

  lemma EmptyObject(s: string, u: string, v: string, r: string)
    requires s == "{" + u && SkipWs(u) == SkipWs(v) && v == "}" + r
    ensures ParseValue(s) == Ok(JObj([]), r)
  {
    assert s[1..] == u && v[1..] == r && SkipWs(v) == v && SkipWs(s) == s;
  }

  lemma ObjectOpens(s: string, u: string, ms: seq<Member>, r: string)
    requires s == "{" + u && ParseMembers(u) == Ok(ms, r) && SkipWs(u) != "" && SkipWs(u)[0] != '}'
    ensures ParseValue(s) == Ok(JObj(ms), r)
  {
    hide ParseMembers;
    assert s[1..] == u && SkipWs(s) == s;
  }

  /** A padded value is read, and what is left begins behind the white space. */
  lemma {:induction false} PaddedReads(s: string, j: Json, r: string)
    requires Padded(s, j, r) && Closes(r)
    ensures ParseValue(s).Ok? && ParseValue(s).value == j && SkipWs(ParseValue(s).rest) == r
    ensures SkipWs(s) != "" && SkipWs(s)[0] != ']' && SkipWs(s)[0] != '}'
    decreases j, 2
  {
    hide ParseValue, Value, Delimited;
    var u: string, v: string :| Blanks(s, u) && Value(u, j, v) && Blanks(v, r);
    EndsNumber(v, r);
    ValueReads(u, j, v);
    SkipsBlanks(s, u);
    SkipsBlanks(v, r);
    NotBlank(r);
    SkipWsTwice(s);
    SkipWsTwice(u);
  }

  lemma {:induction false} ItemsRead(s: string, items: seq<Json>, r: string)
    requires items != [] && Items(s, items, r)
    ensures ParseItems(s) == Ok(items, r) && SkipWs(s) != "" && SkipWs(s)[0] != ']'
    decreases items, 0
  {
    hide ParseValue, Padded, SkipWs;
    var u: string :| Padded(s, items[0], u) &&
      if |items| == 1 then Token(u, "]", r) else exists v: string :: Token(u, ",", v) && Items(v, items[1..], r);
    if |items| == 1 {
      PaddedReads(s, items[0], u);
      assert u[1..] == r && items == [items[0]];
    } else {
      var v: string :| Token(u, ",", v) && Items(v, items[1..], r);
      PaddedReads(s, items[0], u);
      assert u[1..] == v;
      ItemsRead(v, items[1..], r);
      assert items == [items[0]] + items[1..];
    }
  }

  lemma KeyReads(s: string, key: string, r: string)
    requires Key(s, key, r)
    ensures ParseKey(s) == Ok(key, r) && SkipWs(s) != "" && SkipWs(s)[0] != '}'
  {
    hide Chars, ParseStr;
    var t: string, u: string, v: string, w: string :|
      Blanks(s, t) && Token(t, "\"", u) && Chars(u, key, v) && Blanks(v, w) && Token(w, ":", r);
    SkipsBlanks(s, t);
    CharsExactly(u, key, v);
    SkipsBlanks(v, w);
    assert SkipWs(t) == t && t[1..] == u && SkipWs(w) == w && w[1..] == r;
  }

  lemma {:induction false} MembersRead(s: string, ms: seq<Member>, r: string)
    requires ms != [] && Members(s, ms, r)
    ensures ParseMembers(s) == Ok(ms, r) && SkipWs(s) != "" && SkipWs(s)[0] != '}'
    decreases ms, 0
  {
    hide ParseValue, ParseKey, Padded, Key, SkipWs;
    var t: string, u: string :| Key(s, ms[0].key, t) && Padded(t, ms[0].value, u) &&
      if |ms| == 1 then Token(u, "}", r) else exists v: string :: Token(u, ",", v) && Members(v, ms[1..], r);
    KeyReads(s, ms[0].key, t);
    assert Member(ms[0].key, ms[0].value) == ms[0];
    if |ms| == 1 {
      PaddedReads(t, ms[0].value, u);
      assert u[1..] == r && ms == [ms[0]];
    } else {
      var v: string :| Token(u, ",", v) && Members(v, ms[1..], r);
      PaddedReads(t, ms[0].value, u);
      assert u[1..] == v;
      MembersRead(v, ms[1..], r);
      assert ms == [ms[0]] + ms[1..];
    }
  }

  // ----- What is read is written -----

  lemma {:induction false} ValueRead(s: string)
    requires ParseValue(s).Ok?
    ensures Value(SkipWs(s), ParseValue(s).value, ParseValue(s).rest)
    decreases |s|, 1
  {
    hide Chars, NumberText, IsNumber, Items, Members, ParseStr, ParseItems, ParseMembers;
    var t := SkipWs(s);
    var j, r := ParseValue(s).value, ParseValue(s).rest;
    if t[0] == '\"' {
      CharsExactly(t[1..], j.s, r);
      assert Token(t, "\"", t[1..]);
    } else if t[0] == '[' {
      assert Token(t, "[", t[1..]);
      var u := SkipWs(t[1..]);
      if u != "" && u[0] == ']' {
        SkippedBlanks(t[1..]);
        assert Token(u, "]", r);
      } else {
        ItemsWritten(t[1..]);
      }
    } else if t[0] == '{' {
      assert Token(t, "{", t[1..]);
      var u := SkipWs(t[1..]);
      if u != "" && u[0] == '}' {
        SkippedBlanks(t[1..]);
        assert Token(u, "}", r);
      } else {
        MembersWritten(t[1..]);
      }
    } else {
      ScalarRead(s);
    }
  }

  lemma ScalarRead(s: string)
    requires ParseValue(s).Ok? && SkipWs(s) != ""
    requires SkipWs(s)[0] != '\"' && SkipWs(s)[0] != '[' && SkipWs(s)[0] != '{'
    ensures Value(SkipWs(s), ParseValue(s).value, ParseValue(s).rest)
  {
    hide NumberText, IsNumber, SkipWs;
    var t := SkipWs(s);
    if "true" <= t {
      assert t == "true" + t[4..];
    } else if "false" <= t {
      assert t == "false" + t[5..];
    } else if "null" <= t {
      assert t == "null" + t[4..];
    } else {
      NumbersExactly(t[..NumLen(t)]);
      assert t == t[..NumLen(t)] + t[NumLen(t)..];
    }
  }

  lemma {:induction false} PaddedWritten(s: string)
    requires ParseValue(s).Ok?
    ensures Padded(s, ParseValue(s).value, SkipWs(ParseValue(s).rest))
    decreases |s|, 2
  {
    hide ParseValue, Value;
    ValueRead(s);
    SkippedBlanks(s);
    SkippedBlanks(ParseValue(s).rest);
  }

  lemma {:induction false} ItemsWritten(s: string)
    requires ParseItems(s).Ok?
    ensures Items(s, ParseItems(s).value, ParseItems(s).rest)
    decreases |s|, 3
  {
    hide ParseValue, Padded;
    PaddedWritten(s);
    var u := SkipWs(ParseValue(s).rest);
    var items, r := ParseItems(s).value, ParseItems(s).rest;
    ItemsSplit(s);
    if u[0] == ',' {
      ItemsWritten(u[1..]);
      assert Token(u, ",", u[1..]) && Items(u[1..], items[1..], r);
    } else {
      assert Token(u, "]", r);
    }
    assert Padded(s, items[0], u);
  }

  lemma ItemsSplit(s: string)
    requires ParseItems(s).Ok?
    ensures ParseValue(s).Ok?
    ensures var u, items := SkipWs(ParseValue(s).rest), ParseItems(s).value;
            u != "" && u == [u[0]] + u[1..] && items[0] == ParseValue(s).value &&
            if u[0] == ',' then
              ParseItems(u[1..]).Ok? && |items| > 1 && items[1..] == ParseItems(u[1..]).value &&
              ParseItems(s).rest == ParseItems(u[1..]).rest
            else u[0] == ']' && |items| == 1 && ParseItems(s).rest == u[1..]
  {
    hide ParseValue, SkipWs;
  }

  lemma KeyWritten(s: string)
    requires ParseKey(s).Ok?
    ensures Key(s, ParseKey(s).value, ParseKey(s).rest)
  {
    hide Chars, ParseStr;
    var t := SkipWs(s);
    var k, v := ParseStr(t[1..]).value, ParseStr(t[1..]).rest;
    SkippedBlanks(s);
    CharsExactly(t[1..], k, v);
    SkippedBlanks(v);
    var w := SkipWs(v);
    assert Token(t, "\"", t[1..]) && Token(w, ":", w[1..]);
  }

  lemma {:induction false} MembersWritten(s: string)
    requires ParseMembers(s).Ok?
    ensures Members(s, ParseMembers(s).value, ParseMembers(s).rest)
    decreases |s|, 3
  {
    hide ParseValue, ParseKey, Padded, Key;
    KeyWritten(s);
    var t := ParseKey(s).rest;
    PaddedWritten(t);
    var u := SkipWs(ParseValue(t).rest);
    var ms, r := ParseMembers(s).value, ParseMembers(s).rest;
    MembersSplit(s);
    if u[0] == ',' {
      MembersWritten(u[1..]);
      assert Token(u, ",", u[1..]) && Members(u[1..], ms[1..], r);
    } else {
      assert Token(u, "}", r);
    }
    assert Key(s, ms[0].key, t) && Padded(t, ms[0].value, u);
  }

  lemma MembersSplit(s: string)
    requires ParseMembers(s).Ok?
    ensures ParseKey(s).Ok? && ParseValue(ParseKey(s).rest).Ok?
    ensures var v, ms := ParseValue(ParseKey(s).rest), ParseMembers(s).value;
            var u := SkipWs(v.rest);
            u != "" && u == [u[0]] + u[1..] && ms[0] == Member(ParseKey(s).value, v.value) &&
            if u[0] == ',' then
              ParseMembers(u[1..]).Ok? && |ms| > 1 && ms[1..] == ParseMembers(u[1..]).value &&
              ParseMembers(s).rest == ParseMembers(u[1..]).rest
            else u[0] == '}' && |ms| == 1 && ParseMembers(s).rest == u[1..]
  {
    hide ParseValue, ParseKey, SkipWs;
  }

  /** A text is decoded to a document exactly if the grammar says so. */
  lemma TextExactly(s: string, j: Json)
    ensures ParseText(s) == Some(j) <==> Padded(s, j, "")
  {
    hide ParseValue, Padded;
    if Padded(s, j, "") {
      PaddedReads(s, j, "");
    }
    if ParseText(s) == Some(j) {
      PaddedWritten(s);
    }
  }
}
