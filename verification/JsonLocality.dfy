/** Reading a value looks no further than its end: text that follows does not change what is read. */
module JsonLocality {
  import opened Json
  import opened JsonText

  lemma {:induction false} SkipWsLocal(s: string, x: string)
    requires SkipWs(s) != ""
    ensures SkipWs(s + x) == SkipWs(s) + x
  {
    if IsWs(s[0]) {
      SkipWsLocal(s[1..], x);
      assert (s + x)[1..] == s[1..] + x;
    }
  }

  lemma Tail(t: string, x: string)
    requires t != ""
    ensures (t + x)[0] == t[0] && (t + x)[1..] == t[1..] + x
  {
  }

  lemma EscapeDigits(s: string)
    requires ParseEscape(s).Ok?
    ensures s != "" && (s[0] == 'u' ==> |s| >= 5 && IsHex4(s[1..]))
  {
    hide LowEscape, Hex4Value;
  }

  /** A backslash inside a string is followed by its letter, and a code point escape by its digits. */
  lemma EscapeComplete(t: string)
    requires ParseStr(t).Ok?
    ensures t != "" && (t[0] == '\\' ==> |t| >= 2 && (t[1] == 'u' ==> |t| >= 6 && IsHex4(t[2..])))
  {
    hide ParseEscape, IsHex4;
    if t[0] == '\\' {
      assert ParseChar(t).Ok?;
      EscapeDigits(t[1..]);
      assert t[1..][1..] == t[2..];
    }
  }

  lemma LowEscapeLocal(t: string, x: string)
    requires ParseStr(t).Ok?
    ensures LowEscape(t + x) == LowEscape(t)
  {
    hide ParseStr;
    EscapeComplete(t);
    if t[0] == '\\' && t[1] == 'u' {
      assert (t + x)[2..][..4] == t[2..][..4];
    }
  }

  lemma EscapeLocal(s: string, x: string)
    requires ParseEscape(s).Ok? && ParseStr(ParseEscape(s).rest).Ok?
    ensures ParseEscape(s + x) == Ok(ParseEscape(s).value, ParseEscape(s).rest + x)
  {
    hide ParseStr;
    var t := ParseEscape(s).rest;
    if LetterChar(s[0]).Some? {
      assert (s + x)[1..] == t + x;
    } else {
      assert (s + x)[1..][..4] == s[1..][..4];
      assert (s + x)[5..] == s[5..] + x;
      if HighSurrogate(Hex4Value(s[1..])) && LowEscape(s[5..]) {
        assert (s + x)[7..][..4] == s[7..][..4];
        assert (s + x)[11..] == t + x;
        assert LowEscape(s[5..] + x) by {
          assert (s[5..] + x)[2..][..4] == s[5..][2..][..4];
        }
      } else {
        LowEscapeLocal(t, x);
      }
    }
  }

  lemma CharLocal(s: string, x: string)
    requires ParseChar(s).Ok? && ParseStr(ParseChar(s).rest).Ok?
    ensures ParseChar(s + x) == Ok(ParseChar(s).value, ParseChar(s).rest + x)
  {
    hide ParseStr, ParseEscape;
    assert (s + x)[1..] == s[1..] + x;
    if s[0] == '\\' {
      EscapeLocal(s[1..], x);
    }
  }

  lemma {:induction false} StrLocal(s: string, x: string)
    requires ParseStr(s).Ok?
    ensures ParseStr(s + x) == Ok(ParseStr(s).value, ParseStr(s).rest + x)
  {
    if s[0] == '\"' {
      assert (s + x)[1..] == s[1..] + x;
    } else {
      var c, t := ParseChar(s).value, ParseChar(s).rest;
      StrLocal(t, x);
      CharLocal(s, x);
      StrCons(s + x, c, t + x, ParseStr(t).value, ParseStr(t).rest + x);
    }
  }

  lemma {:induction false} NumLenLocal(s: string, x: string)
    requires NumLen(s) < |s| || Delimited(x)
    ensures NumLen(s + x) == NumLen(s)
  {
    if s == "" {
      assert s + x == x;
    } else {
      assert (s + x)[1..] == s[1..] + x;
      if NumChar(s[0]) {
        NumLenLocal(s[1..], x);
      }
    }
  }

  /** Whether text may follow a value that ends with the rest r of its own text. */
  predicate MayFollow(r: string, x: string) {
    r != "" || Delimited(x)
  }

  lemma {:induction false} ValueLocal(s: string, x: string)
    requires ParseValue(s).Ok? && MayFollow(ParseValue(s).rest, x)
    ensures ParseValue(s + x) == Ok(ParseValue(s).value, ParseValue(s).rest + x)
    decreases |s|, 1
  {
    var t := SkipWs(s);
    SkipWsLocal(s, x);
    if t[0] == '\"' {
      StrLocal(t[1..], x);
      assert (t + x)[1..] == t[1..] + x;
    } else if t[0] == '[' {
      ArrayLocal(s, t, x);
    } else if t[0] == '{' {
      ObjectLocal(s, t, x);
    } else {
      ScalarLocal(s, t, x);
    }
  }

  lemma NumberLocal(t: string, x: string)
    requires IsNumber(t[..NumLen(t)]) && MayFollow(t[NumLen(t)..], x)
    ensures ParseValue(t + x) == Ok(JNum(t[..NumLen(t)]), t[NumLen(t)..] + x)
  {
    hide NumLen, IsNumber;
    var n := NumLen(t);
    NumLenLocal(t, x);
    NumberParses(t[..n], "");
    NumberChars(t[..n]);
    var w := t + x;
    assert w[..n] == t[..n] && w[n..] == t[n..] + x && w[0] == t[0];
    assert SkipWs(w) == w;
  }

  lemma LiteralLocal(word: string, t: string, x: string)
    requires word <= t && (word == "true" || word == "false" || word == "null")
    ensures ParseValue(t) == Ok(ParseValue(word).value, t[|word|..])
    ensures ParseValue(t + x) == Ok(ParseValue(word).value, t[|word|..] + x)
  {
    var r := t[|word|..];
    assert t == word + r && t + x == word + (r + x) && word == word + "";
    LiteralValues(r);
    LiteralValues(r + x);
    LiteralValues("");
  }

  lemma ScalarLocal(s: string, t: string, x: string)
    requires t == SkipWs(s) && SkipWs(s + x) == t + x && ParseValue(s).Ok? && MayFollow(ParseValue(s).rest, x)
    requires t[0] != '\"' && t[0] != '[' && t[0] != '{'
    ensures ParseValue(s + x) == Ok(ParseValue(s).value, ParseValue(s).rest + x)
  {
    SkipWsTwice(s);
    SkipWsTwice(s + x);
    if "true" <= t {
      LiteralLocal("true", t, x);
    } else if "false" <= t {
      LiteralLocal("false", t, x);
    } else if "null" <= t {
      LiteralLocal("null", t, x);
    } else {
      NumberLocal(t, x);
    }
  }

  lemma {:induction false} SkipWsTwice(s: string)
    ensures SkipWs(SkipWs(s)) == SkipWs(s)
    ensures ParseValue(SkipWs(s)) == ParseValue(s)
  {
    if s != "" && IsWs(s[0]) {
      SkipWsTwice(s[1..]);
    }
  }

  lemma {:induction false} ArrayLocal(s: string, t: string, x: string)
    requires t == SkipWs(s) && SkipWs(s + x) == t + x && t != "" && t[0] == '[' && ParseValue(s).Ok?
    ensures ParseValue(s + x) == Ok(ParseValue(s).value, ParseValue(s).rest + x)
    decreases |t|, 0
  {
    var b := t[1..];
    assert (t + x)[1..] == b + x;
    var u := SkipWs(b);
    if u != "" {
      SkipWsLocal(b, x);
    }
    if u != "" && u[0] == ']' {
      assert (u + x)[1..] == u[1..] + x;
    } else {
      ItemsLocal(b, x);
    }
  }

  lemma {:induction false} ObjectLocal(s: string, t: string, x: string)
    requires t == SkipWs(s) && SkipWs(s + x) == t + x && t != "" && t[0] == '{' && ParseValue(s).Ok?
    ensures ParseValue(s + x) == Ok(ParseValue(s).value, ParseValue(s).rest + x)
    decreases |t|, 0
  {
    var b := t[1..];
    assert (t + x)[1..] == b + x;
    var u := SkipWs(b);
    if u != "" {
      SkipWsLocal(b, x);
    }
    if u != "" && u[0] == '}' {
      assert (u + x)[1..] == u[1..] + x;
    } else {
      MembersLocal(b, x);
    }
  }

  lemma {:induction false} ItemsLocal(s: string, x: string)
    requires ParseItems(s).Ok?
    ensures ParseItems(s + x) == Ok(ParseItems(s).value, ParseItems(s).rest + x)
    ensures SkipWs(s) != ""
    decreases |s|, 2
  {
    hide SkipWs;
    var r := ParseValue(s).rest;
    ValueLocal(s, x);
    SkipWsLocal(r, x);
    var t := SkipWs(r);
    assert (t + x)[1..] == t[1..] + x;
    if t[0] == ',' {
      ItemsLocal(t[1..], x);
    }
  }

  lemma KeyLocal(s: string, x: string)
    requires ParseKey(s).Ok?
    ensures ParseKey(s + x) == Ok(ParseKey(s).value, ParseKey(s).rest + x)
    ensures SkipWs(s) != ""
  {
    hide ParseStr, SkipWs;
    var t := SkipWs(s);
    SkipWsLocal(s, x);
    Tail(t, x);
    StrLocal(t[1..], x);
    var r := ParseStr(t[1..]).rest;
    SkipWsLocal(r, x);
    var u := SkipWs(r);
    Tail(u, x);
  }

  lemma {:induction false} MembersLocal(s: string, x: string)
    requires ParseMembers(s).Ok?
    ensures ParseMembers(s + x) == Ok(ParseMembers(s).value, ParseMembers(s).rest + x)
    ensures SkipWs(s) != ""
    decreases |s|, 2
  {
    hide ParseKey, ParseValue, SkipWs;
    KeyLocal(s, x);
    var u := ParseKey(s).rest;
    var r := ParseValue(u).rest;
    ValueLocal(u, x);
    SkipWsLocal(r, x);
    var t := SkipWs(r);
    Tail(t, x);
    if t[0] == ',' {
      MembersLocal(t[1..], x);
    }
  }
}
