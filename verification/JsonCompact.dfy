/** The compaction the Go encoder applies to raw JSON, and that it preserves what the text means. */
module JsonCompact {
  import opened Json
  import opened JsonText
  import opened JsonLocality

  predicate CompactEscapes(c: char) {
    HtmlSpecial(c) || c == '\U{2028}' || c == '\U{2029}'
  }

  /** Compaction outside strings: white space disappears. */
  function CompactOut(s: string): string
    decreases |s|
  {
    if s == "" then ""
    else if IsWs(s[0]) then CompactOut(s[1..])
    else [s[0]] + (if s[0] == '\"' then CompactIn(s[1..]) else CompactOut(s[1..]))
  }

  /** Compaction inside strings: the HTML characters and the line separators are escaped. */
  function CompactIn(s: string): string
    decreases |s|
  {
    if s == "" then ""
    else if s[0] == '\"' then ['\"'] + CompactOut(s[1..])
    else if s[0] == '\\' && |s| >= 2 then s[..2] + CompactIn(s[2..])
    else if CompactEscapes(s[0]) then ['\\', 'u'] + Hex4(s[0] as int) + CompactIn(s[1..])
    else [s[0]] + CompactIn(s[1..])
  }

  // ----- Inside strings -----

  predicate PlainInside(c: char) {
    c != '\"' && c != '\\' && !CompactEscapes(c)
  }

  lemma PlainStep(c: char, t: string)
    requires PlainInside(c)
    ensures CompactIn([c] + t) == [c] + CompactIn(t)
  {
    assert ([c] + t)[1..] == t;
  }

  lemma BackslashStep(e: char, t: string)
    ensures CompactIn(['\\', e] + t) == ['\\', e] + CompactIn(t)
  {
    var s := ['\\', e] + t;
    assert s[..2] == ['\\', e] && s[2..] == t;
  }

  lemma {:induction false} InsideRun(w: string, r: string)
    requires forall i :: 0 <= i < |w| ==> PlainInside(w[i])
    ensures CompactIn(w + r) == w + CompactIn(r)
  {
    hide CompactIn;
    if w == "" {
      assert w + r == r && w + CompactIn(r) == CompactIn(r);
    } else {
      InsideRun(w[1..], r);
      PlainStep(w[0], w[1..] + r);
      Regroup(w, r);
      Regroup(w, CompactIn(r));
    }
  }

  lemma Regroup(w: string, r: string)
    requires w != ""
    ensures [w[0]] + (w[1..] + r) == w + r
  {
  }

  /** A code point escape is copied as it stands. */
  lemma CodeCopied(h: string, t: string)
    requires |h| == 4 && IsHex4(h)
    ensures CompactIn(['\\', 'u'] + (h + t)) == ['\\', 'u'] + (h + CompactIn(t))
  {
    hide CompactIn;
    BackslashStep('u', h + t);
    InsideRun(h, t);
  }

  lemma CodeSplit(s: string, r: string)
    requires |s| >= 6 && s[0] == '\\' && s[1] == 'u'
    ensures s[..6] + r == ['\\', 'u'] + (s[2..6] + r)
  {
    assert s[..6] == ['\\', 'u'] + s[2..6];
  }

  lemma HasDigits(s: string)
    requires |s| >= 6 && IsHex4(s[2..])
    ensures IsHex4(s[2..6])
  {
    assert s[2..][..4] == s[2..6];
  }

  lemma CodeCompact(s: string)
    requires |s| >= 6 && s[0] == '\\' && s[1] == 'u' && IsHex4(s[2..])
    ensures CompactIn(s) == s[..6] + CompactIn(s[6..])
    ensures CompactIn(s) == ['\\', 'u'] + (s[2..6] + CompactIn(s[6..]))
  {
    hide CompactIn, IsHex4;
    HasDigits(s);
    CodeCopied(s[2..6], s[6..]);
    CodeSplit(s, s[6..]);
    CodeSplit(s, CompactIn(s[6..]));
    assert s == s[..6] + s[6..];
  }

  lemma LowEscapeCompact(t: string)
    requires ParseStr(t).Ok?
    ensures LowEscape(CompactIn(t)) == LowEscape(t)
  {
    hide CompactIn, LowEscape, IsHex4;
    EscapeComplete(t);
    if t[0] == '\\' && t[1] == 'u' {
      CodeCompact(t);
      SameDigitsSameEscape(CompactIn(t), t);
    } else {
      NoCodeNoEscape(t);
    }
  }

  lemma SameDigitsSameEscape(y: string, t: string)
    requires |t| >= 6 && |y| >= 6 && y[..6] == t[..6]
    ensures LowEscape(y) == LowEscape(t)
  {
    assert y[2..][..4] == y[..6][2..] && t[2..][..4] == t[..6][2..];
  }

  lemma NoCodeNoEscape(t: string)
    requires ParseStr(t).Ok? && !(t[0] == '\\' && t[1] == 'u')
    ensures !LowEscape(CompactIn(t)) && !LowEscape(t)
  {
    if CompactEscapes(t[0]) {
      assert CompactIn(t)[2..][..4] == Hex4(t[0] as int);
    }
  }

  lemma PairParses(h: string, l: string, t: string)
    requires |h| == 4 && IsHex4(h) && HighSurrogate(Hex4Value(h))
    requires |l| == 4 && IsHex4(l) && LowSurrogate(Hex4Value(l))
    ensures ParseEscape(['u'] + (h + (['\\', 'u'] + (l + t)))) ==
            Ok((0x10000 + (Hex4Value(h) - 0xD800) * 0x400 + (Hex4Value(l) - 0xDC00)) as char, t)
  {
    var s := ['u'] + (h + (['\\', 'u'] + (l + t)));
    assert s[1..][..4] == h && s[7..][..4] == l && s[11..] == t;
    assert s[5..][2..][..4] == l;
  }

  lemma SingleParses(h: string, y: string)
    requires |h| == 4 && IsHex4(h) && !(HighSurrogate(Hex4Value(h)) && LowEscape(y))
    ensures var n := Hex4Value(h);
            ParseEscape(['u'] + (h + y)) ==
            Ok(if HighSurrogate(n) || LowSurrogate(n) then '\U{FFFD}' else n as char, y)
  {
    var s := ['u'] + (h + y);
    assert s[1..][..4] == h && s[5..] == y;
  }

  lemma PairCompact(h: string, l: string, t: string)
    requires |h| == 4 && IsHex4(h) && HighSurrogate(Hex4Value(h))
    requires |l| == 4 && IsHex4(l) && LowSurrogate(Hex4Value(l))
    ensures var s := ['u'] + (h + (['\\', 'u'] + (l + t)));
            ParseEscape(s).Ok? &&
            CompactIn(['\\'] + s) == ['\\'] + (['u'] + (h + (['\\', 'u'] + (l + CompactIn(t))))) &&
            ParseEscape(['u'] + (h + (['\\', 'u'] + (l + CompactIn(t))))) == Ok(ParseEscape(s).value, CompactIn(t)) &&
            ParseEscape(s).rest == t
  {
    hide CompactIn, ParseEscape, IsHex4;
    var low := ['\\', 'u'] + (l + t);
    PairParses(h, l, t);
    PairParses(h, l, CompactIn(t));
    CodeCopied(l, t);
    CodeCopied(h, low);
    assert ['\\'] + (['u'] + (h + low)) == ['\\', 'u'] + (h + low);
  }

  lemma SingleCompact(h: string, t: string)
    requires |h| == 4 && IsHex4(h) && !(HighSurrogate(Hex4Value(h)) && LowEscape(t)) && ParseStr(t).Ok?
    ensures var s := ['u'] + (h + t);
            ParseEscape(s).Ok? && ParseEscape(s).rest == t &&
            CompactIn(['\\'] + s) == ['\\'] + (['u'] + (h + CompactIn(t))) &&
            ParseEscape(['u'] + (h + CompactIn(t))) == Ok(ParseEscape(s).value, CompactIn(t))
  {
    hide CompactIn, ParseEscape, IsHex4, ParseStr, LowEscape;
    LowEscapeCompact(t);
    SingleParses(h, t);
    SingleParses(h, CompactIn(t));
    CodeCopied(h, t);
    assert ['\\'] + (['u'] + (h + t)) == ['\\', 'u'] + (h + t);
  }

  lemma LetterCompact(l: char, t: string)
    requires LetterChar(l).Some?
    ensures CompactIn(['\\'] + ([l] + t)) == ['\\'] + ([l] + CompactIn(t))
    ensures ParseEscape([l] + CompactIn(t)) == Ok(LetterChar(l).value, CompactIn(t))
  {
    hide CompactIn;
    BackslashStep(l, t);
    assert ['\\', l] + t == ['\\'] + ([l] + t);
    assert ['\\', l] + CompactIn(t) == ['\\'] + ([l] + CompactIn(t));
    assert ([l] + CompactIn(t))[1..] == CompactIn(t);
  }

  /** How a code point escape splits into its digits and the rest. */
  lemma CodeParts(s: string) returns (h: string)
    requires ParseEscape(s).Ok? && LetterChar(s[0]).None?
    ensures |s| >= 5 && |h| == 4 && IsHex4(h) && s == ['u'] + (h + s[5..])
    ensures Hex4Value(h) == Hex4Value(s[1..])
  {
    h := s[1..5];
    assert s[1..][..4] == h;
  }

  lemma LowParts(s: string) returns (l: string)
    requires LowEscape(s)
    ensures |l| == 4 && IsHex4(l) && LowSurrogate(Hex4Value(l)) && s == ['\\', 'u'] + (l + s[6..])
  {
    l := s[2..6];
    assert s[2..][..4] == l;
  }

  /** An escape keeps its meaning when what follows it is compacted. */
  lemma EscapeCompact(s: string) returns (e: string)
    requires ParseEscape(s).Ok? && ParseStr(ParseEscape(s).rest).Ok?
    ensures CompactIn(['\\'] + s) == ['\\'] + e
    ensures ParseEscape(e) == Ok(ParseEscape(s).value, CompactIn(ParseEscape(s).rest))
  {
    var t := ParseEscape(s).rest;
    if LetterChar(s[0]).Some? {
      LetterCompact(s[0], t);
      assert s == [s[0]] + t;
      e := [s[0]] + CompactIn(t);
    } else {
      var h := CodeParts(s);
      if HighSurrogate(Hex4Value(h)) && LowEscape(s[5..]) {
        var l := LowParts(s[5..]);
        PairCompact(h, l, s[5..][6..]);
        e := ['u'] + (h + (['\\', 'u'] + (l + CompactIn(s[5..][6..]))));
      } else {
        SingleParses(h, s[5..]);
        SingleCompact(h, s[5..]);
        e := ['u'] + (h + CompactIn(s[5..]));
      }
    }
  }

  lemma PlainCompact(c: char, y: string)
    requires c >= ' ' && c != '\\' && c != '\"'
    ensures ParseChar((if CompactEscapes(c) then ['\\', 'u'] + Hex4(c as int) else [c]) + y) == Ok(c, y)
  {
    if CompactEscapes(c) {
      CodeParses(c as int, y);
    } else {
      assert ([c] + y)[1..] == y;
    }
  }

  lemma {:induction false} StrCompact(s: string)
    requires ParseStr(s).Ok?
    ensures ParseStr(CompactIn(s)) == Ok(ParseStr(s).value, CompactOut(ParseStr(s).rest))
  {
    if s[0] == '\"' {
      assert CompactIn(s)[1..] == CompactOut(s[1..]);
    } else {
      var c, t := ParseChar(s).value, ParseChar(s).rest;
      StrCompact(t);
      if s[0] == '\\' {
        var e := EscapeCompact(s[1..]);
        assert ['\\'] + s[1..] == s;
        assert CompactIn(s)[1..] == e;
      } else {
        PlainCompact(s[0], CompactIn(t));
      }
      StrCons(CompactIn(s), c, CompactIn(t), ParseStr(t).value, CompactOut(ParseStr(t).rest));
    }
  }

  // ----- Outside strings -----

  lemma {:induction false} SkipCompact(s: string)
    ensures CompactOut(SkipWs(s)) == CompactOut(s)
    ensures SkipWs(s) == "" || !IsWs(SkipWs(s)[0])
    ensures SkipWs(s) == "" <==> CompactOut(s) == ""
    ensures SkipWs(s) != "" ==> CompactOut(s)[0] == SkipWs(s)[0]
    ensures SkipWs(CompactOut(s)) == CompactOut(s)
  {
    if s != "" && IsWs(s[0]) {
      SkipCompact(s[1..]);
    }
  }

  predicate PlainOutside(c: char) {
    c != '\"' && !IsWs(c)
  }

  lemma OutsideStep(c: char, t: string)
    requires PlainOutside(c)
    ensures CompactOut([c] + t) == [c] + CompactOut(t)
  {
    assert ([c] + t)[1..] == t;
  }

  lemma {:induction false} OutsideRun(w: string, r: string)
    requires forall i :: 0 <= i < |w| ==> PlainOutside(w[i])
    ensures CompactOut(w + r) == w + CompactOut(r)
  {
    hide CompactOut;
    if w == "" {
      assert w + r == r && w + CompactOut(r) == CompactOut(r);
    } else {
      OutsideRun(w[1..], r);
      OutsideStep(w[0], w[1..] + r);
      Regroup(w, r);
      Regroup(w, CompactOut(r));
    }
  }

  /** The text after a value inside a well-formed document: nothing, or a comma or a closing bracket. */
  predicate Closed(r: string) {
    var t := SkipWs(r);
    t == "" || t[0] == ',' || t[0] == ']' || t[0] == '}'
  }

  lemma NumberCompact(w: string, r: string)
    requires IsNumber(w) && Closed(r)
    ensures ParseValue(CompactOut(w + r)) == Ok(JNum(w), CompactOut(r))
  {
    SkipCompact(r);
    NumberChars(w);
    OutsideRun(w, r);
    NumberParses(w, CompactOut(r));
  }

  lemma LiteralCompact(word: string, t: string)
    requires word <= t && (word == "true" || word == "false" || word == "null")
    ensures ParseValue(CompactOut(t)) == Ok(ParseValue(t).value, CompactOut(ParseValue(t).rest))
  {
    var r := t[|word|..];
    assert t == word + r;
    OutsideRun(word, r);
    LiteralValues(r);
    LiteralValues(CompactOut(r));
  }

  lemma ScalarCompact(t: string)
    requires t != "" && !IsWs(t[0]) && t[0] != '\"' && t[0] != '[' && t[0] != '{'
    requires ParseValue(t).Ok? && Closed(ParseValue(t).rest)
    ensures ParseValue(CompactOut(t)) == Ok(ParseValue(t).value, CompactOut(ParseValue(t).rest))
  {
    if "true" <= t {
      LiteralCompact("true", t);
    } else if "false" <= t {
      LiteralCompact("false", t);
    } else if "null" <= t {
      LiteralCompact("null", t);
    } else {
      var n := NumLen(t);
      assert t == t[..n] + t[n..];
      NumberCompact(t[..n], t[n..]);
    }
  }

  lemma {:induction false} ValueCompact(s: string)
    requires ParseValue(s).Ok? && Closed(ParseValue(s).rest)
    ensures ParseValue(CompactOut(s)) == Ok(ParseValue(s).value, CompactOut(ParseValue(s).rest))
    decreases |s|, 1
  {
    SkipCompact(s);
    SkipWsTwice(s);
    var t := SkipWs(s);
    if t[0] == '\"' {
      StrCompact(t[1..]);
      assert CompactOut(t) == "\"" + CompactIn(t[1..]);
      StringValue(CompactIn(t[1..]), ParseStr(t[1..]).value, CompactOut(ParseStr(t[1..]).rest));
    } else if t[0] == '[' {
      ArrayCompact(t);
    } else if t[0] == '{' {
      ObjectCompact(t);
    } else {
      ScalarCompact(t);
    }
  }

  lemma {:induction false} ArrayCompact(t: string)
    requires t != "" && t[0] == '[' && ParseValue(t).Ok?
    ensures ParseValue(CompactOut(t)) == Ok(ParseValue(t).value, CompactOut(ParseValue(t).rest))
    decreases |t|, 0
  {
    var b := t[1..];
    var y := CompactOut(b);
    assert CompactOut(t) == "[" + y && ("[" + y)[1..] == y;
    SkipCompact(b);
    var u := SkipWs(b);
    if u != "" && u[0] == ']' {
      assert y[1..] == CompactOut(u[1..]);
    } else {
      ItemsCompact(b);
    }
  }

  lemma {:induction false} ObjectCompact(t: string)
    requires t != "" && t[0] == '{' && ParseValue(t).Ok?
    ensures ParseValue(CompactOut(t)) == Ok(ParseValue(t).value, CompactOut(ParseValue(t).rest))
    decreases |t|, 0
  {
    var b := t[1..];
    var y := CompactOut(b);
    assert CompactOut(t) == "{" + y && ("{" + y)[1..] == y;
    SkipCompact(b);
    var u := SkipWs(b);
    if u != "" && u[0] == '}' {
      assert y[1..] == CompactOut(u[1..]);
    } else {
      MembersCompact(b);
    }
  }

  lemma {:induction false} ItemsCompact(s: string)
    requires ParseItems(s).Ok?
    ensures ParseItems(CompactOut(s)) == Ok(ParseItems(s).value, CompactOut(ParseItems(s).rest))
    decreases |s|, 2
  {
    var r := ParseValue(s).rest;
    ValueCompact(s);
    SkipCompact(r);
    var t := SkipWs(r);
    assert CompactOut(t)[1..] == CompactOut(t[1..]);
    if t[0] == ',' {
      ItemsCompact(t[1..]);
    }
  }

  lemma KeyCompact(s: string)
    requires ParseKey(s).Ok?
    ensures ParseKey(CompactOut(s)) == Ok(ParseKey(s).value, CompactOut(ParseKey(s).rest))
  {
    SkipCompact(s);
    var t := SkipWs(s);
    StrCompact(t[1..]);
    assert CompactOut(t)[1..] == CompactIn(t[1..]);
    var r := ParseStr(t[1..]).rest;
    SkipCompact(r);
    var u := SkipWs(r);
    assert CompactOut(u)[1..] == CompactOut(u[1..]);
  }

  lemma {:induction false} MembersCompact(s: string)
    requires ParseMembers(s).Ok?
    ensures ParseMembers(CompactOut(s)) == Ok(ParseMembers(s).value, CompactOut(ParseMembers(s).rest))
    decreases |s|, 2
  {
    KeyCompact(s);
    var u := ParseKey(s).rest;
    var r := ParseValue(u).rest;
    ValueCompact(u);
    SkipCompact(r);
    var t := SkipWs(r);
    assert CompactOut(t)[1..] == CompactOut(t[1..]);
    if t[0] == ',' {
      MembersCompact(t[1..]);
    }
  }

  /** Compaction does not change the document a text spells. */
  lemma CompactKeepsMeaning(s: string)
    requires ParseText(s).Some?
    ensures ParseText(CompactOut(s)) == ParseText(s)
  {
    ValueCompact(s);
    SkipCompact(ParseValue(s).rest);
  }
}
