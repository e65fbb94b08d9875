/** The text layer: printing and parsing are inverse, and reading a value is local. */
module JsonText {
  import opened Common
  import opened Json

  /** Texts that cannot extend a number or a literal that ends just before them. */
  predicate Delimited(s: string) {
    s == "" || !NumChar(s[0])
  }

  /** Every number in the document is spelled as JSON spells numbers. */
  predicate Printable(j: Json) {
    match j
    case JNum(text) => IsNumber(text)
    case JArr(items) => forall i :: 0 <= i < |items| ==> Printable(items[i])
    case JObj(members) => forall i :: 0 <= i < |members| ==> Printable(members[i].value)
    case _ => true
  }

  // ----- Strings -----

  lemma CodeParses(n: nat, t: string)
    requires n < 0xD800
    ensures ParseChar(['\\', 'u'] + Hex4(n) + t) == Ok(n as char, t)
  {
    var s := ['u'] + Hex4(n) + t;
    assert s[1..][..4] == Hex4(n) && s[5..] == t;
    assert (['\\', 'u'] + Hex4(n) + t)[1..] == s;
  }

  lemma LetterParses(c: char, t: string)
    requires EscapeLetter(c).Some?
    ensures ParseChar(['\\', EscapeLetter(c).value] + t) == Ok(c, t)
  {
    var s := [EscapeLetter(c).value] + t;
    assert s[1..] == t;
    assert (['\\', EscapeLetter(c).value] + t)[1..] == s;
  }

  lemma EscapeParses(c: char, html: bool, t: string)
    ensures ParseChar(EscapeChar(c, html) + t) == Ok(c, t)
  {
    if EscapeLetter(c).Some? {
      LetterParses(c, t);
    } else if NeedsCode(c, html) {
      CodeParses(c as int, t);
    } else {
      assert ([c] + t)[1..] == t;
    }
  }

  lemma StrEnd(rest: string)
    ensures ParseStr("\"" + rest) == Ok("", rest)
  {
    assert ("\"" + rest)[1..] == rest;
  }

  /** One more character in front of a string that reads well. */
  lemma StrCons(s: string, c: char, t: string, v: string, rest: string)
    requires s != "" && s[0] != '\"'
    requires ParseChar(s) == Ok(c, t) && ParseStr(t) == Ok(v, rest)
    ensures ParseStr(s) == Ok([c] + v, rest)
  {
  }

  lemma QuoteStep(c: char, html: bool, t: string, v: string, rest: string)
    requires ParseStr(t) == Ok(v, rest)
    ensures ParseStr(EscapeChar(c, html) + t) == Ok([c] + v, rest)
  {
    EscapeParses(c, html, t);
    StrCons(EscapeChar(c, html) + t, c, t, v, rest);
  }

  lemma EscapeCons(s: string, html: bool, u: string)
    requires s != ""
    ensures Escape(s, html) + u == EscapeChar(s[0], html) + (Escape(s[1..], html) + u)
  {
  }

  lemma {:induction false} EscapeParse(s: string, html: bool, u: string, rest: string)
    requires u == "\"" + rest
    ensures ParseStr(Escape(s, html) + u) == Ok(s, rest)
  {
    if s == "" {
      StrEnd(rest);
      assert Escape(s, html) + u == u;
    } else {
      EscapeParse(s[1..], html, u, rest);
      QuoteStep(s[0], html, Escape(s[1..], html) + u, s[1..], rest);
      EscapeCons(s, html, u);
      assert [s[0]] + s[1..] == s;
    }
  }

  /** Reading back a quoted string yields the string and stops behind the closing quote. */
  lemma QuoteParses(s: string, html: bool, rest: string)
    ensures Quote(s, html) + rest == "\"" + (Escape(s, html) + ("\"" + rest))
    ensures ParseStr((Quote(s, html) + rest)[1..]) == Ok(s, rest)
    ensures ParseValue(Quote(s, html) + rest) == Ok(JStr(s), rest)
  {
    EscapeParse(s, html, "\"" + rest, rest);
    var body := Escape(s, html) + ("\"" + rest);
    assert Quote(s, html) + rest == "\"" + body;
    StringValue(body, s, rest);
  }

  lemma StringValue(body: string, v: string, rest: string)
    requires ParseStr(body) == Ok(v, rest)
    ensures ("\"" + body)[1..] == body
    ensures ParseValue("\"" + body) == Ok(JStr(v), rest)
  {
    var s := "\"" + body;
    assert SkipWs(s) == s && s[1..] == body;
  }

  // ----- Numbers -----

  lemma {:induction false} DigitsAreNumChars(t: string)
    ensures forall i :: 0 <= i < DigitsLen(t) ==> IsDigit(t[i])
  {
    if t != "" && IsDigit(t[0]) {
      DigitsAreNumChars(t[1..]);
    }
  }

  lemma NumberChars(t: string)
    requires IsNumber(t)
    ensures t != "" && (t[0] == '-' || IsDigit(t[0]))
    ensures forall i :: 0 <= i < |t| ==> NumChar(t[i])
  {
    var u := if t[0] == '-' then t[1..] else t;
    var n := DigitsLen(u);
    DigitsAreNumChars(u);
    var f := u[n..];
    FractionChars(f);
    assert forall i :: n <= i < |u| ==> u[i] == f[i - n];
  }

  lemma ExponentChars(t: string)
    requires IsExponent(t)
    ensures forall i :: 0 <= i < |t| ==> NumChar(t[i])
  {
    if t != "" {
      var u := if |t| > 1 && (t[1] == '+' || t[1] == '-') then t[2..] else t[1..];
      DigitsAreNumChars(u);
      assert forall i :: |t| - |u| <= i < |t| ==> t[i] == u[i - (|t| - |u|)];
    }
  }

  lemma FractionChars(t: string)
    requires IsFraction(t)
    ensures forall i :: 0 <= i < |t| ==> NumChar(t[i])
  {
    if t != "" && t[0] == '.' {
      var u := t[1..];
      var n := DigitsLen(u);
      DigitsAreNumChars(u);
      ExponentChars(t[1 + n..]);
      assert forall i :: 1 <= i < 1 + n ==> t[i] == u[i - 1];
      assert forall i :: 1 + n <= i < |t| ==> t[i] == t[1 + n..][i - 1 - n];
    } else {
      ExponentChars(t);
    }
  }

  lemma {:induction false} NumLenOf(t: string, rest: string)
    requires forall i :: 0 <= i < |t| ==> NumChar(t[i])
    requires Delimited(rest)
    ensures NumLen(t + rest) == |t|
  {
    if t == "" {
      assert t + rest == rest;
    } else {
      assert (t + rest)[1..] == t[1..] + rest;
      NumLenOf(t[1..], rest);
    }
  }

  lemma NumberParses(t: string, rest: string)
    requires IsNumber(t) && Delimited(rest)
    ensures ParseValue(t + rest) == Ok(JNum(t), rest)
  {
    NumberChars(t);
    NumLenOf(t, rest);
    assert (t + rest)[..|t|] == t && (t + rest)[|t|..] == rest;
    assert SkipWs(t + rest) == t + rest;
    assert (t + rest)[0] == t[0];
  }

  // ----- Documents -----

  lemma PrintStart(j: Json)
    requires Printable(j)
    ensures Print(j) != "" && !IsWs(Print(j)[0]) && Print(j)[0] != ']' && Print(j)[0] != '}'
  {
    if j.JNum? {
      NumberChars(j.text);
    }
  }

  lemma ArrayValue(body: string, items: seq<Json>, rest: string)
    requires body != "" && !IsWs(body[0]) && body[0] != ']'
    requires ParseItems(body) == Ok(items, rest)
    ensures ParseValue("[" + body) == Ok(JArr(items), rest)
  {
    var s := "[" + body;
    assert SkipWs(s) == s && s[1..] == body && SkipWs(body) == body;
  }

  lemma ObjectValue(body: string, members: seq<Member>, rest: string)
    requires body != "" && !IsWs(body[0]) && body[0] != '}'
    requires ParseMembers(body) == Ok(members, rest)
    ensures ParseValue("{" + body) == Ok(JObj(members), rest)
  {
    var s := "{" + body;
    assert SkipWs(s) == s && s[1..] == body && SkipWs(body) == body;
  }

  lemma EmptyValues(rest: string)
    ensures ParseValue("[]" + rest) == Ok(JArr([]), rest)
    ensures ParseValue("{}" + rest) == Ok(JObj([]), rest)
  {
    var a, o := "[]" + rest, "{}" + rest;
    assert SkipWs(a) == a && SkipWs(a[1..]) == a[1..] && a[1..][1..] == rest;
    assert SkipWs(o) == o && SkipWs(o[1..]) == o[1..] && o[1..][1..] == rest;
  }

  lemma LiteralValues(rest: string)
    ensures ParseValue("null" + rest) == Ok(JNull, rest)
    ensures ParseValue("true" + rest) == Ok(JBool(true), rest)
    ensures ParseValue("false" + rest) == Ok(JBool(false), rest)
  {
    assert ("null" + rest)[..4] == "null" && ("null" + rest)[4..] == rest;
    assert ("true" + rest)[..4] == "true" && ("true" + rest)[4..] == rest;
    assert ("false" + rest)[..5] == "false" && ("false" + rest)[5..] == rest;
  }

  lemma ItemsEnd(s: string, v: Json, rest: string)
    requires ParseValue(s) == Ok(v, "]" + rest)
    ensures ParseItems(s) == Ok([v], rest)
  {
    var t := "]" + rest;
    assert SkipWs(t) == t && t[1..] == rest;
  }

  lemma ItemsCons(s: string, v: Json, t: string, vs: seq<Json>, rest: string)
    requires ParseValue(s) == Ok(v, "," + t) && ParseItems(t) == Ok(vs, rest)
    ensures ParseItems(s) == Ok([v] + vs, rest)
  {
    assert SkipWs("," + t) == "," + t && ("," + t)[1..] == t;
  }

  lemma MembersEnd(s: string, k: string, u: string, v: Json, rest: string)
    requires ParseKey(s) == Ok(k, u) && ParseValue(u) == Ok(v, "}" + rest)
    ensures ParseMembers(s) == Ok([Member(k, v)], rest)
  {
    var t := "}" + rest;
    assert SkipWs(t) == t && t[1..] == rest;
  }

  lemma MembersCons(s: string, k: string, u: string, v: Json, t: string, ms: seq<Member>, rest: string)
    requires ParseKey(s) == Ok(k, u) && ParseValue(u) == Ok(v, "," + t) && ParseMembers(t) == Ok(ms, rest)
    ensures ParseMembers(s) == Ok([Member(k, v)] + ms, rest)
  {
    assert SkipWs("," + t) == "," + t && ("," + t)[1..] == t;
  }

  lemma KeyParses(key: string, rest: string)
    ensures ParseKey(Quote(key, false) + (":" + rest)) == Ok(key, rest)
  {
    var s := Quote(key, false) + (":" + rest);
    QuoteParses(key, false, ":" + rest);
    assert SkipWs(s) == s;
    assert SkipWs(":" + rest) == ":" + rest && (":" + rest)[1..] == rest;
  }

  /** Printing followed by parsing reads back the document and stops exactly behind it. */
  lemma {:induction false} PrintParses(j: Json, rest: string)
    requires Printable(j) && Delimited(rest)
    ensures ParseValue(Print(j) + rest) == Ok(j, rest)
    decreases j, 1
  {
    match j
    case JNull => LiteralValues(rest);
    case JBool(b) => LiteralValues(rest);
    case JNum(text) => NumberParses(text, rest);
    case JStr(v) => QuoteParses(v, false, rest);
    case JArr(items) =>
      if items == [] {
        EmptyValues(rest);
      } else {
        ItemsParse(items, rest);
        PrintStart(items[0]);
        BracketText(items, [], rest);
        ArrayValue(PrintItems(items) + ("]" + rest), items, rest);
      }
    case JObj(members) =>
      if members == [] {
        EmptyValues(rest);
      } else {
        MembersParse(members, rest);
        BracketText([], members, rest);
        ObjectValue(PrintMembers(members) + ("}" + rest), members, rest);
      }
  }

  lemma Reassociate(a: string, b: string, c: string, d: string)
    ensures a + b + c + d == a + (b + (c + d))
  {
  }

  lemma ItemsText(v: Json, vs: seq<Json>, u: string)
    ensures PrintItems([v] + vs) + u == Print(v) + (if vs == [] then u else "," + (PrintItems(vs) + u))
  {
    assert ([v] + vs)[1..] == vs;
  }

  lemma MembersText(m: Member, ms: seq<Member>, u: string)
    ensures PrintMembers([m] + ms) + u ==
            Quote(m.key, false) + (":" + (Print(m.value) + (if ms == [] then u else "," + (PrintMembers(ms) + u))))
  {
    assert ([m] + ms)[1..] == ms;
  }

  lemma BracketText(items: seq<Json>, members: seq<Member>, rest: string)
    ensures items != [] ==> Print(JArr(items)) + rest == "[" + (PrintItems(items) + ("]" + rest))
    ensures members != [] ==> Print(JObj(members)) + rest == "{" + (PrintMembers(members) + ("}" + rest))
  {
    if items != [] {
      Reassociate("[", PrintItems(items), "]", rest);
    }
    if members != [] {
      Reassociate("{", PrintMembers(members), "}", rest);
    }
  }

  lemma {:induction false} ItemsParse(items: seq<Json>, rest: string)
    requires items != [] && forall i :: 0 <= i < |items| ==> Printable(items[i])
    ensures ParseItems(PrintItems(items) + ("]" + rest)) == Ok(items, rest)
    decreases items, 0
  {
    var v, vs := items[0], items[1..];
    assert items == [v] + vs;
    ItemsText(v, vs, "]" + rest);
    if vs == [] {
      PrintParses(v, "]" + rest);
      ItemsEnd(Print(v) + ("]" + rest), v, rest);
      assert items == [v];
    } else {
      var tail := PrintItems(vs) + ("]" + rest);
      PrintParses(v, "," + tail);
      ItemsParse(vs, rest);
      ItemsCons(Print(v) + ("," + tail), v, tail, vs, rest);
    }
  }

  lemma {:induction false} MembersParse(members: seq<Member>, rest: string)
    requires members != [] && forall i :: 0 <= i < |members| ==> Printable(members[i].value)
    ensures ParseMembers(PrintMembers(members) + ("}" + rest)) == Ok(members, rest)
    decreases members, 0
  {
    var m, ms := members[0], members[1..];
    var close := "}" + rest;
    MembersText(m, ms, close);
    if ms == [] {
      PrintParses(m.value, close);
      KeyParses(m.key, Print(m.value) + close);
      MembersEnd(Quote(m.key, false) + (":" + (Print(m.value) + close)), m.key, Print(m.value) + close, m.value, rest);
      assert members == [m] && [m] + ms == [m];
    } else {
      MembersParse(ms, rest);
      var tail := PrintMembers(ms) + close;
      PrintParses(m.value, "," + tail);
      MemberStep(m, ms, tail, rest);
      assert members == [m] + ms;
    }
  }

  lemma MemberStep(m: Member, ms: seq<Member>, tail: string, rest: string)
    requires ParseMembers(tail) == Ok(ms, rest)
    requires ParseValue(Print(m.value) + ("," + tail)) == Ok(m.value, "," + tail)
    ensures ParseMembers(Quote(m.key, false) + (":" + (Print(m.value) + ("," + tail)))) == Ok([m] + ms, rest)
  {
    var u := Print(m.value) + ("," + tail);
    KeyParses(m.key, u);
    MembersCons(Quote(m.key, false) + (":" + u), m.key, u, m.value, tail, ms, rest);
  }

  /** Print-then-parse is the identity on whole texts. */
  lemma PrintRoundTrip(j: Json)
    requires Printable(j)
    ensures ParseText(Print(j)) == Some(j)
  {
    PrintParses(j, "");
    assert Print(j) + "" == Print(j);
  }

  /** Two documents print alike exactly when they are the same document. */
  lemma PrintInjective(a: Json, b: Json)
    requires Printable(a) && Printable(b)
    ensures Print(a) == Print(b) <==> a == b
  {
    PrintRoundTrip(a);
    PrintRoundTrip(b);
  }
}
