/** Which texts are data types: the primitive names spelled out, and what becomes of any text. */
module DataTypeNames {
  import opened Common
  import opened Json
  import opened DataTypes
  import Numbers

  predicate Letter(c: char) {
    'a' <= c <= 'z' || 'A' <= c <= 'Z'
  }

  /** A letter, then letters, digits, underscores and blanks. */
  predicate NameText(t: string) {
    t != "" && Letter(t[0]) &&
    forall i :: 0 <= i < |t| ==> Letter(t[i]) || '0' <= t[i] <= '9' || t[i] == '_' || t[i] == ' '
  }

  predicate NumberText(t: string) {
    t != "" && forall i :: 0 <= i < |t| ==> '0' <= t[i] <= '9'
  }

  /** One number, or two with a comma between them. */
  ghost predicate Numbered(t: string) {
    NumberText(t) || exists m: string, n: string :: NumberText(m) && NumberText(n) && t == m + "," + n
  }

  /** A name, alone or with numbers in parentheses. */
  ghost predicate PrimitiveText(t: string) {
    NameText(t) || exists name: string, ns: string :: NameText(name) && Numbered(ns) && t == name + "(" + ns + ")"
  }

  predicate StructuredKind(t: string) {
    t in {"struct", "list", "map", "union", "unparsed", "external"}
  }

  // ----- The pattern -----

  lemma NameBefore(name: string, rest: string)
    requires NameText(name) && (rest == "" || rest[0] == '(')
    ensures NameLen(name + rest) == |name|
  {
    NameFront(name, rest);
  }

  lemma {:induction false} NameFront(name: string, rest: string)
    requires forall i :: 0 <= i < |name| ==> IsNameChar(name[i])
    requires rest == "" || !IsNameChar(rest[0])
    ensures NameLen(name + rest) == |name|
  {
    if name == "" {
      assert name + rest == rest;
    } else {
      NameFront(name[1..], rest);
      assert (name + rest)[1..] == name[1..] + rest;
    }
  }

  lemma CommaBetween(m: string, n: string)
    ensures var t := m + "," + n; t[|m|] == ',' && t[..|m|] == m && t[|m| + 1..] == n
  {
  }

  lemma SplitAtComma(t: string, i: nat)
    requires i < |t| && t[i] == ','
    ensures t == t[..i] + "," + t[i + 1..]
  {
  }

  lemma NumbersAreDigits(t: string)
    ensures NumberText(t) <==> AllDigits(t)
  {
  }

  lemma NumberedExactly(t: string)
    ensures Numbered(t) <==>
            AllDigits(t) || exists i :: 0 <= i < |t| && t[i] == ',' && AllDigits(t[..i]) && AllDigits(t[i + 1..])
  {
    hide NumberText, AllDigits;
    NumbersAreDigits(t);
    if m: string, n: string :| NumberText(m) && NumberText(n) && t == m + "," + n {
      CommaBetween(m, n);
      NumbersAreDigits(m);
      NumbersAreDigits(n);
    }
    if i :| 0 <= i < |t| && t[i] == ',' && AllDigits(t[..i]) && AllDigits(t[i + 1..]) {
      SplitAtComma(t, i);
      NumbersAreDigits(t[..i]);
      NumbersAreDigits(t[i + 1..]);
    }
  }

  lemma ArgumentsExactly(ns: string)
    requires ns != ""
    ensures IsArguments("(" + ns + ")") <==> Numbered(ns)
  {
    hide AllDigits, Numbered;
    var a := "(" + ns + ")";
    assert a[1..|a| - 1] == ns && a[|a| - 1] == ')';
    NumberedExactly(ns);
  }

  lemma NoNumbers()
    ensures !Numbered("")
  {
  }

  /** The pattern matches exactly the primitive texts. */
  lemma PatternExactly(t: string)
    ensures IsPrimitive(t) <==> PrimitiveText(t)
  {
    if PrimitiveText(t) {
      SpelledMatches(t);
    }
    if IsPrimitive(t) {
      MatchSpelled(t);
    }
  }

  lemma SpelledMatches(t: string)
    requires PrimitiveText(t)
    ensures IsPrimitive(t)
  {
    hide IsArguments, Numbered, NameText;
    if NameText(t) {
      JustName(t);
    } else {
      var name: string, ns: string :| NameText(name) && Numbered(ns) && t == name + "(" + ns + ")";
      NoNumbers();
      ArgumentsExactly(ns);
      NamedArguments(name, "(" + ns + ")");
      assert t == name + ("(" + ns + ")");
    }
  }

  lemma JustName(t: string)
    requires NameText(t)
    ensures IsPrimitive(t)
  {
    NameBefore(t, "");
    assert t + "" == t;
  }

  lemma NamedArguments(name: string, a: string)
    requires NameText(name) && IsArguments(a) && a != "" && a[0] == '('
    ensures IsPrimitive(name + a)
  {
    hide IsArguments;
    NameBefore(name, a);
    assert (name + a)[|name|..] == a;
  }

  lemma FrontIsName(t: string)
    requires IsPrimitive(t)
    ensures NameText(t[..NameLen(t)])
  {
    hide IsArguments;
    assert NameLen(t) > 0;
  }

  lemma MatchSpelled(t: string)
    requires IsPrimitive(t)
    ensures PrimitiveText(t)
  {
    hide NameText, Numbered, NameLen;
    FrontIsName(t);
    var n := NameLen(t);
    if n == |t| {
      assert t[..n] == t;
    } else {
      var a := t[n..];
      var ns := a[1..|a| - 1];
      assert a == "(" + ns + ")";
      ArgumentsExactly(ns);
      assert t == t[..n] + "(" + ns + ")";
    }
  }

  // ----- The parser -----

  lemma KindsExactly(t: string)
    ensures IsStructured(t) <==> StructuredKind(t)
  {
  }

  /** What becomes of a text, once it is trimmed. A document is decoded and validated; a JSON string and a bare
      text are accepted exactly if they are primitive texts and no structured kinds, and are kept as they are. */
  lemma ParseExactly(value: string)
    ensures var t := Trim(value);
            && (t == "" ==> Parse(value) == None)
            && (t != "" && t[0] == '{' ==>
                  Parse(value) ==
                  if ParseText(t).Some? && Decode(ParseText(t).value).Some? && Valid(Decode(ParseText(t).value).value)
                  then Decode(ParseText(t).value) else None)
            && (t != "" && t[0] == '\"' ==>
                  Parse(value) ==
                  match ParseText(t)
                  case Some(JStr(name)) =>
                    if PrimitiveText(name) && !StructuredKind(name) then Some(Plain(name)) else None
                  case _ => None)
            && (t != "" && t[0] != '{' && t[0] != '\"' ==>
                  Parse(value) == if PrimitiveText(t) && !StructuredKind(t) then Some(Plain(t)) else None)
  {
    hide IsPrimitive, PrimitiveText, IsStructured, StructuredKind, ParseText, Decode, Valid;
    var t := Trim(value);
    PatternExactly(t);
    KindsExactly(t);
    if ParseText(t).Some? && ParseText(t).value.JStr? {
      PatternExactly(ParseText(t).value.s);
      KindsExactly(ParseText(t).value.s);
    }
  }

  /** Names that end in no blank, with no, one or two numbers behind them, are accepted as they are written. */
  lemma SpelledAccepted(name: string, m: nat, n: nat)
    requires NameText(name)
    ensures !StructuredKind(name) && Trim(name) == name ==> Parse(name) == Some(Plain(name))
    ensures var t := name + "(" + Numbers.Digits(m) + ")"; Parse(t) == Some(Plain(t))
    ensures var t := name + "(" + Numbers.Digits(m) + "," + Numbers.Digits(n) + ")"; Parse(t) == Some(Plain(t))
  {
    hide Parse, Numbers.Digits;
    var one := name + "(" + Numbers.Digits(m) + ")";
    var two := name + "(" + Numbers.Digits(m) + "," + Numbers.Digits(n) + ")";
    ParseExactly(name);
    Closed(one);
    Closed(two);
    assert NumberText(Numbers.Digits(m)) && NumberText(Numbers.Digits(n));
    assert Numbered(Numbers.Digits(m)) && Numbered(Numbers.Digits(m) + "," + Numbers.Digits(n));
    assert two == name + "(" + (Numbers.Digits(m) + "," + Numbers.Digits(n)) + ")";
    assert PrimitiveText(one) && PrimitiveText(two);
    ParseExactly(one);
    ParseExactly(two);
  }

  lemma Closed(t: string)
    requires |t| >= 2 && Letter(t[0]) && t[|t| - 1] == ')'
    ensures Trim(t) == t && !StructuredKind(t)
  {
    TrimFacts(t);
  }
}
