/** How deep a text is nested: reading a document one character at a time, quotes and brackets balance, so no
    object ends another object's text behind one of its colons. */
module JsonNesting {
  import opened Json
  import opened JsonLocality

  /** Outside of strings, in a string, behind a backslash, behind the last closing bracket, or no document. */
  datatype Place = Out(depth: int) | In(depth: int) | Escaped(depth: int) | Done | Bad

  function Close(d: int): Place {
    if d <= 1 then Done else Out(d - 1)
  }

  function Step(p: Place, c: char): Place {
    match p
    case Out(d) =>
      if c == '\"' then In(d)
      else if c == '{' || c == '[' then Out(d + 1)
      else if c == '}' || c == ']' then Close(d)
      else if c == '\\' then Bad
      else p
    case In(d) => if c == '\"' then Out(d) else if c == '\\' then Escaped(d) else p
    case Escaped(d) => In(d)
    case Done => if IsWs(c) then Done else Bad
    case Bad => Bad
  }

  function Run(p: Place, s: string): Place
    decreases |s|
  {
    if s == "" then p else Run(Step(p, s[0]), s[1..])
  }

  lemma {:induction false} RunConcat(p: Place, s: string, t: string)
    ensures Run(p, s + t) == Run(Run(p, s), t)
    decreases |s|
  {
    hide Step;
    if s == "" {
      assert s + t == t;
    } else {
      RunConcat(Step(p, s[0]), s[1..], t);
      assert (s + t)[1..] == s[1..] + t;
    }
  }

  lemma {:induction false} BadStays(s: string)
    ensures Run(Bad, s) == Bad
  {
    if s != "" {
      BadStays(s[1..]);
    }
  }

  // ----- Deeper -----

  function Deeper(p: Place, e: int): Place {
    match p
    case Out(d) => Out(d + e)
    case In(d) => In(d + e)
    case Escaped(d) => Escaped(d + e)
    case Done => Out(e)
    case Bad => Bad
  }

  /** What is read inside of more brackets is read in the same way. */
  lemma {:induction false} DeeperRun(p: Place, s: string, e: int)
    requires e >= 1 && Run(p, s) != Bad
    requires p.Out? || p.In? || p.Escaped? ==> p.depth >= 1
    ensures Run(Deeper(p, e), s) == Deeper(Run(p, s), e)
    decreases |s|
  {
    if s != "" {
      BadStays(s[1..]);
      DeeperRun(Step(p, s[0]), s[1..], e);
    }
  }

  lemma {:induction false} DepthStays(p: Place, s: string)
    requires p.Out? || p.In? || p.Escaped? ==> p.depth >= 1
    ensures var q := Run(p, s); q.Out? || q.In? || q.Escaped? ==> q.depth >= 1
    decreases |s|
  {
    if s != "" {
      DepthStays(Step(p, s[0]), s[1..]);
    }
  }

  // ----- Quotes -----

  /** One of two readings is in a string and the other one is not. */
  predicate Opposite(p: Place, q: Place) {
    (p.In? && (q.Out? || q.Done?)) || (q.In? && (p.Out? || p.Done?))
  }

  /** Readings that differ by a quote never agree again. */
  lemma {:induction false} StayOpposite(p: Place, q: Place, s: string)
    requires Opposite(p, q) && Run(p, s) != Bad && Run(q, s) != Bad
    ensures Opposite(Run(p, s), Run(q, s))
    decreases |s|
  {
    if s != "" {
      BadStays(s[1..]);
      StayOpposite(Step(p, s[0]), Step(q, s[0]), s[1..]);
    }
  }

  // ----- Plain text -----

  predicate Neutral(c: char) {
    c != '\"' && c != '\\' && c != '{' && c != '}' && c != '[' && c != ']'
  }

  lemma {:induction false} NeutralRun(p: Place, s: string, n: nat)
    requires (p.Out? || p.In?) && n <= |s| && forall i :: 0 <= i < n ==> Neutral(s[i])
    ensures Run(p, s) == Run(p, s[n..])
  {
    if n == 0 {
      assert s[0..] == s;
    } else {
      NeutralRun(p, s[1..], n - 1);
      assert s[1..][n - 1..] == s[n..];
    }
  }

  lemma {:induction false} SkipRun(p: Place, s: string)
    requires p.Out? || p.Done?
    ensures Run(p, s) == Run(p, SkipWs(s))
  {
    if s != "" && IsWs(s[0]) {
      SkipRun(p, s[1..]);
    }
  }

  // ----- Documents -----

  lemma HexNeutral(s: string)
    requires IsHex4(s)
    ensures forall i :: 0 <= i < 4 ==> Neutral(s[i])
  {
  }

  lemma EscapeRun(s: string, d: int)
    requires ParseEscape(s).Ok?
    ensures Run(Escaped(d), s) == Run(In(d), ParseEscape(s).rest)
  {
    assert Run(Escaped(d), s) == Run(In(d), s[1..]);
    if LetterChar(s[0]).None? {
      HexNeutral(s[1..]);
      NeutralRun(In(d), s[1..], 4);
      assert s[1..][4..] == s[5..];
      if HighSurrogate(Hex4Value(s[1..])) && LowEscape(s[5..]) {
        LowRun(s[5..], d);
        assert s[5..][2..] == s[7..] && s[5..][6..] == s[11..];
      }
    }
  }

  lemma LowRun(t: string, d: int)
    requires LowEscape(t)
    ensures Run(In(d), t) == Run(In(d), t[6..])
  {
    assert t[1..][1..] == t[2..];
    assert Run(In(d), t) == Run(Escaped(d), t[1..]) == Run(In(d), t[2..]);
    HexNeutral(t[2..]);
    NeutralRun(In(d), t[2..], 4);
    assert t[2..][4..] == t[6..];
  }

  lemma {:induction false} StrRun(s: string, d: int)
    requires ParseStr(s).Ok?
    ensures Run(In(d), s) == Run(Out(d), ParseStr(s).rest)
    decreases |s|
  {
    hide ParseEscape;
    if s[0] != '\"' {
      if s[0] == '\\' {
        EscapeRun(s[1..], d);
      }
      StrRun(ParseChar(s).rest, d);
    }
  }

  lemma {:induction false} NumPrefix(s: string)
    ensures forall i :: 0 <= i < NumLen(s) ==> Neutral(s[i])
  {
    if s != "" && NumChar(s[0]) {
      NumPrefix(s[1..]);
    }
  }

  lemma WordRun(word: string, t: string, d: int)
    requires word <= t && forall i :: 0 <= i < |word| ==> Neutral(word[i])
    ensures Run(Out(d), t) == Run(Out(d), t[|word|..])
  {
    assert forall i :: 0 <= i < |word| ==> t[i] == word[i];
    NeutralRun(Out(d), t, |word|);
  }

  lemma NumberRun(t: string, d: int)
    ensures Run(Out(d), t) == Run(Out(d), t[NumLen(t)..])
  {
    NumPrefix(t);
    NeutralRun(Out(d), t, NumLen(t));
  }

  lemma ScalarRun(t: string, d: int)
    requires t != "" && t[0] != '\"' && t[0] != '[' && t[0] != '{' && SkipWs(t) == t && ParseValue(t).Ok?
    ensures Run(Out(d), t) == Run(Out(d), ParseValue(t).rest)
  {
    hide Run, NumLen, IsNumber, SkipWs, ParseStr, ParseItems, ParseMembers;
    if "true" <= t {
      WordRun("true", t, d);
    } else if "false" <= t {
      WordRun("false", t, d);
    } else if "null" <= t {
      WordRun("null", t, d);
    } else {
      NumberRun(t, d);
    }
  }

  /** Reading a value ends where it began. */
  lemma {:induction false} ValueRun(s: string, d: int)
    requires d >= 1 && ParseValue(s).Ok?
    ensures Run(Out(d), s) == Run(Out(d), ParseValue(s).rest)
    decreases |s|, 1
  {
    hide ParseStr, ParseItems, ParseMembers, IsNumber;
    SkipRun(Out(d), s);
    SkipWsTwice(s);
    var t := SkipWs(s);
    if t[0] == '\"' {
      StrRun(t[1..], d);
    } else if t[0] == '[' {
      BracketRun(t, d);
    } else if t[0] == '{' {
      BraceRun(t, d);
    } else {
      ScalarRun(t, d);
    }
  }

  lemma {:induction false} BracketRun(t: string, d: int)
    requires d >= 0 && t != "" && t[0] == '[' && ParseValue(t).Ok?
    ensures Run(Out(d + 1), t[1..]) == Run(Close(d + 1), ParseValue(t).rest)
    decreases |t|, 0
  {
    hide ParseItems;
    SkipRun(Out(d + 1), t[1..]);
    var u := SkipWs(t[1..]);
    if u == "" || u[0] != ']' {
      ItemsRun(t[1..], d + 1);
    }
  }

  lemma {:induction false} BraceRun(t: string, d: int)
    requires d >= 0 && t != "" && t[0] == '{' && ParseValue(t).Ok?
    ensures Run(Out(d + 1), t[1..]) == Run(Close(d + 1), ParseValue(t).rest)
    decreases |t|, 0
  {
    hide ParseMembers;
    SkipRun(Out(d + 1), t[1..]);
    var u := SkipWs(t[1..]);
    if u == "" || u[0] != '}' {
      MembersRun(t[1..], d + 1);
    }
  }

  lemma {:induction false} ItemsRun(s: string, d: int)
    requires d >= 1 && ParseItems(s).Ok?
    ensures Run(Out(d), s) == Run(Close(d), ParseItems(s).rest)
    decreases |s|, 2
  {
    hide ParseValue;
    ValueRun(s, d);
    var r := ParseValue(s).rest;
    SkipRun(Out(d), r);
    var t := SkipWs(r);
    if t[0] == ',' {
      ItemsRun(t[1..], d);
    }
  }

  lemma KeyRun(s: string, d: int)
    requires ParseKey(s).Ok?
    ensures Run(Out(d), s) == Run(Out(d), ParseKey(s).rest)
  {
    hide ParseStr;
    SkipRun(Out(d), s);
    var t := SkipWs(s);
    StrRun(t[1..], d);
    SkipRun(Out(d), ParseStr(t[1..]).rest);
  }

  lemma {:induction false} MembersRun(s: string, d: int)
    requires d >= 1 && ParseMembers(s).Ok?
    ensures Run(Out(d), s) == Run(Close(d), ParseMembers(s).rest)
    decreases |s|, 2
  {
    hide ParseValue, ParseKey;
    KeyRun(s, d);
    var u := ParseKey(s).rest;
    ValueRun(u, d);
    var r := ParseValue(u).rest;
    SkipRun(Out(d), r);
    var t := SkipWs(r);
    if t[0] == ',' {
      MembersRun(t[1..], d);
    }
  }

  /** The text of an object ends with the bracket that closes it. */
  lemma ObjectRun(t: string)
    requires t != "" && t[0] == '{' && ParseText(t).Some?
    ensures Run(Out(1), t[1..]) == Done
  {
    hide ParseMembers;
    BraceRun(t, 0);
    SkipRun(Done, ParseValue(t).rest);
  }

  // ----- Behind a colon -----

  /** Where a reading stands right behind a colon. */
  lemma BehindColon(w: string)
    ensures var p := Run(Out(1), w + [':']); p.Bad? || ((p.Out? || p.In?) && p.depth >= 1)
  {
    RunConcat(Out(1), w, [':']);
    DepthStays(Out(1), w);
    assert [':'][1..] == "";
  }

  /** No object's text ends with another object's text behind one of its colons. */
  lemma NoObjectBehindColon(t: string, w: string, u: string)
    requires t != "" && t[0] == '{' && ParseText(t).Some? && u != "" && u[0] == '{' && ParseText(u).Some?
    ensures t != w + [':'] + u
  {
    hide ParseText, Run;
    ObjectRun(t);
    ObjectRun(u);
    if t == w + [':'] + u {
      assert w != "";
      var p := Run(Out(1), w[1..] + [':']);
      assert t[1..] == w[1..] + [':'] + u;
      RunConcat(Out(1), w[1..] + [':'], u);
      BehindColon(w[1..]);
      BadStays(u);
      OpensInside(p, u);
      assert false;
    }
  }

  lemma OpensInside(p: Place, u: string)
    requires u != "" && u[0] == '{' && Run(Out(1), u[1..]) == Done && (p.Out? || p.In?) && p.depth >= 1
    ensures Run(p, u) != Done
  {
    var q, v := Step(p, u[0]), u[1..];
    assert Run(p, u) == Run(q, v);
    if p.Out? {
      assert q == Deeper(Out(1), p.depth);
      OpensDeeper(v, p.depth);
    } else {
      OpensInString(q, v);
    }
  }

  lemma OpensDeeper(v: string, e: int)
    requires e >= 1 && Run(Out(1), v) == Done
    ensures Run(Deeper(Out(1), e), v) == Out(e)
  {
    hide Run;
    DeeperRun(Out(1), v, e);
  }

  lemma OpensInString(q: Place, v: string)
    requires q.In? && Run(Out(1), v) == Done
    ensures Run(q, v) != Done
  {
    hide Run;
    if Run(q, v) == Done {
      StayOpposite(Out(1), q, v);
    }
  }

  /** Nor with plain text. */
  lemma NoPlainBehindColon(t: string, w: string, u: string)
    requires t != "" && t[0] == '{' && ParseText(t).Some? && forall i :: 0 <= i < |u| ==> Neutral(u[i])
    ensures t != w + [':'] + u
  {
    hide ParseText, Run;
    ObjectRun(t);
    if t == w + [':'] + u && w != "" {
      var p := Run(Out(1), w[1..] + [':']);
      assert t[1..] == w[1..] + [':'] + u;
      RunConcat(Out(1), w[1..] + [':'], u);
      BehindColon(w[1..]);
      BadStays(u);
      PlainStays(p, u);
      assert false;
    }
  }

  lemma PlainStays(p: Place, u: string)
    requires (p.Out? || p.In?) && forall i :: 0 <= i < |u| ==> Neutral(u[i])
    ensures Run(p, u) == p
  {
    NeutralRun(p, u, |u|);
    assert u[|u|..] == "";
  }
}
