/** The signature of a definition can be read back: it determines the names and types it was made of. */
module SignatureLaws {
  import opened Common
  import opened Json
  import opened JsonLocality
  import opened DataTypes
  import opened RawJson
  import opened Functions

  /** The shown form of a data type expression the provider accepts: a primitive type name, or the text
      of a JSON object. */
  predicate TypeText(t: string) {
    IsPrimitive(t) || (t != "" && t[0] == '{' && Trimmed(t) && ParseText(t).Some?)
  }

  /** Every accepted data type expression is shown in that form. */
  lemma AcceptedTypeText(value: string, raw: string)
    requires TypeFromTerraform(value) == Some(raw)
    ensures TypeText(ToTerraform(raw))
  {
    hide IsPrimitive, IsStructured, Decode, Valid, ParseText, ToTerraform, Quote;
    var t := Trim(value);
    TrimFacts(value);
    TrimFacts(t);
    PrimitiveStarts(t);
    if t[0] == '{' {
      ObjectShown(t);
    } else if t[0] == '\"' {
      NameShown(raw, ParseText(t).value.s);
    } else {
      QuoteText(t, true);
      QuoteNotEmpty(t);
      NameShown(raw, t);
    }
  }

  lemma PrimitiveStarts(t: string)
    ensures IsPrimitive(t) ==> t != "" && t[0] != '{' && t[0] != '[' && t[0] != '\"'
  {
  }

  lemma QuoteNotEmpty(t: string)
    ensures Quote(t, true) != ""
  {
  }

  lemma ObjectShown(t: string)
    requires t != "" && t[0] == '{' && Trimmed(t) && ParseText(t).Some?
    ensures ToTerraform(t) == t
  {
    TextStart(t);
    TrimFacts(t);
  }

  lemma NameShown(raw: string, name: string)
    requires raw != "" && ParseText(raw) == Some(JStr(name))
    ensures ToTerraform(raw) == name
  {
    hide ParseText;
  }

  // ----- Reading the parts back -----

  function IndexOf(s: string, c: char): (n: nat)
    ensures n <= |s|
  {
    if s == "" || s[0] == c then 0 else 1 + IndexOf(s[1..], c)
  }

  lemma {:induction false} IndexOfFirst(a: string, c: char, b: string)
    requires c !in a
    ensures IndexOf(a + [c] + b, c) == |a|
  {
    if a == "" {
      assert (a + [c] + b)[0] == c;
    } else {
      assert a == [a[0]] + a[1..];
      IndexOfFirst(a[1..], c, b);
      assert (a + [c] + b)[1..] == a[1..] + [c] + b;
    }
  }

  /** The length of the type text at the front. */
  function TypeLen(s: string): nat {
    if s != "" && s[0] == '{' then
      match ParseValue(s)
      case Ok(_, r) => |s| - |SkipWs(r)|
      case Fail => 0
    else
      var n := NameLen(s);
      if n < |s| && s[n] == '(' then n + IndexOf(s[n..], ')') + 1 else n
  }

  /** What may follow a type in a signature. */
  predicate Follows(x: string) {
    x == "" || x[0] == ','
  }

  lemma {:induction false} SkipWsAll(r: string, x: string)
    requires SkipWs(r) == "" && Follows(x)
    ensures SkipWs(r + x) == x
  {
    if r == "" {
      assert r + x == x;
    } else {
      SkipWsAll(r[1..], x);
      assert (r + x)[0] == r[0] && (r + x)[1..] == r[1..] + x;
      assert SkipWs(r + x) == SkipWs(r[1..] + x);
    }
  }

  lemma {:induction false} NameLenLocal(t: string, x: string)
    requires NameLen(t) < |t| || x == "" || !IsNameChar(x[0])
    ensures NameLen(t + x) == NameLen(t)
  {
    if t == "" {
      assert t + x == x;
    } else {
      assert (t + x)[1..] == t[1..] + x;
      if IsNameChar(t[0]) {
        NameLenLocal(t[1..], x);
      }
    }
  }

  lemma ArgumentsInside(a: string, k: nat)
    requires IsArguments(a) && 0 < k < |a| - 1
    ensures IsDigit(a[k]) || a[k] == ','
  {
    var inner := a[1..|a| - 1];
    assert a[k] == inner[k - 1];
    if !AllDigits(inner) {
      var i :| 0 <= i < |inner| && inner[i] == ',' && AllDigits(inner[..i]) && AllDigits(inner[i + 1..]);
      if k - 1 < i {
        assert inner[k - 1] == inner[..i][k - 1];
      } else if k - 1 > i {
        assert inner[k - 1] == inner[i + 1..][k - 2 - i];
      }
    }
  }

  lemma ArgumentsClose(a: string)
    requires IsArguments(a)
    ensures a == a[..|a| - 1] + [')'] && ')' !in a[..|a| - 1]
  {
    forall k | 0 <= k < |a| - 1 ensures a[k] != ')' {
      if k > 0 {
        ArgumentsInside(a, k);
      }
    }
  }

  lemma PrimitiveLen(t: string, x: string)
    requires IsPrimitive(t) && Follows(x)
    ensures TypeLen(t + x) == |t|
  {
    var n := NameLen(t);
    NameLenLocal(t, x);
    var s := t + x;
    assert s[0] == t[0];
    if n < |t| {
      var a := t[n..];
      ArgumentsClose(a);
      IndexOfFirst(a[..|a| - 1], ')', x);
      assert s[n..] == a[..|a| - 1] + [')'] + x;
      assert s[n] == a[0];
    } else {
      assert x != "" ==> s[n] == x[0];
    }
  }

  lemma DocumentLen(t: string, x: string)
    requires t != "" && t[0] == '{' && ParseText(t).Some? && Follows(x)
    ensures TypeLen(t + x) == |t|
  {
    var r := ParseValue(t).rest;
    ValueLocal(t, x);
    SkipWsAll(r, x);
    assert (t + x)[0] == t[0];
  }

  lemma TypeReadsBack(t: string, x: string)
    requires TypeText(t) && Follows(x)
    ensures TypeLen(t + x) == |t|
  {
    if IsPrimitive(t) {
      PrimitiveLen(t, x);
    } else {
      DocumentLen(t, x);
    }
  }

  // ----- Unique decoding -----

  /** A parameter as the signature spells it. */
  datatype Spelled = Spelled(name: string, typ: string)

  function Spell(ps: seq<Param>): (r: seq<Spelled>)
    ensures |r| == |ps|
    ensures forall i :: 0 <= i < |r| ==> r[i] == Spelled(ps[i].name, ToTerraform(ps[i].dataType))
  {
    seq(|ps|, i requires 0 <= i < |ps| => Spelled(ps[i].name, ToTerraform(ps[i].dataType)))
  }

  /** A name without a colon and an accepted type. */
  predicate Readable(s: Spelled) {
    ':' !in s.name && TypeText(s.typ)
  }

  function Join(ss: seq<Spelled>): string
    decreases |ss|, 1
  {
    if ss == [] then "" else ss[0].name + [':'] + (ss[0].typ + JoinTail(ss))
  }

  function JoinTail(ss: seq<Spelled>): string
    requires ss != []
    decreases |ss|, 0
  {
    if |ss| == 1 then "" else [','] + Join(ss[1..])
  }

  lemma {:induction false} SignatureJoins(ps: seq<Param>)
    ensures SignatureOf(ps) == Join(Spell(ps))
  {
    hide ToTerraform;
    if ps != [] {
      SignatureJoins(ps[1..]);
      assert Spell(ps)[1..] == Spell(ps[1..]);
    }
  }

  lemma FirstPart(n: string, t: string, x: string, m: string, u: string, y: string)
    requires ':' !in n && ':' !in m && TypeText(t) && TypeText(u) && Follows(x) && Follows(y)
    requires n + [':'] + (t + x) == m + [':'] + (u + y)
    ensures n == m && t == u && x == y
  {
    var s := n + [':'] + (t + x);
    IndexOfFirst(n, ':', t + x);
    IndexOfFirst(m, ':', u + y);
    assert s[..|n|] == n && s[..|m|] == m;
    assert s[|n| + 1..] == t + x && s[|m| + 1..] == u + y;
    TypeReadsBack(t, x);
    TypeReadsBack(u, y);
    assert (t + x)[..|t|] == t && (u + y)[..|u|] == u;
    assert (t + x)[|t|..] == x && (u + y)[|u|..] == y;
  }

  lemma {:induction false} JoinDecodes(a: seq<Spelled>, b: seq<Spelled>)
    requires forall i :: 0 <= i < |a| ==> Readable(a[i])
    requires forall i :: 0 <= i < |b| ==> Readable(b[i])
    requires Join(a) == Join(b)
    ensures a == b
    decreases |a|
  {
    if a != [] && b != [] {
      FirstPart(a[0].name, a[0].typ, JoinTail(a), b[0].name, b[0].typ, JoinTail(b));
      assert a == [a[0]] + a[1..] && b == [b[0]] + b[1..];
      if |a| > 1 && |b| > 1 {
        assert JoinTail(a)[1..] == Join(a[1..]) && JoinTail(b)[1..] == Join(b[1..]);
        JoinDecodes(a[1..], b[1..]);
      }
    }
  }

  /** Definitions whose parameter names hold no colon and whose parameter types were accepted have the
      same signature exactly when they have the same names and types, in order. */
  lemma SignatureDecodes(ps: seq<Param>, qs: seq<Param>)
    requires forall i :: 0 <= i < |ps| ==> Readable(Spell(ps)[i])
    requires forall i :: 0 <= i < |qs| ==> Readable(Spell(qs)[i])
    ensures SignatureOf(ps) == SignatureOf(qs) <==> Spell(ps) == Spell(qs)
  {
    SignatureJoins(ps);
    SignatureJoins(qs);
    if SignatureOf(ps) == SignatureOf(qs) {
      JoinDecodes(Spell(ps), Spell(qs));
    }
  }

  lemma JoinCollides(typ: string)
    ensures Join([Spelled("a:" + typ + ",b", typ)]) == Join([Spelled("a", typ), Spelled("b", typ)])
  {
    var two := [Spelled("a", typ), Spelled("b", typ)];
    assert two[1..] == [Spelled("b", typ)];
    assert typ + "" == typ;
    var last := "b" + [':'] + typ;
    assert Join(two[1..]) == last;
    assert "a" + [':'] + (typ + ([','] + last)) == "a:" + typ + ",b" + [':'] + typ;
  }

  /** Without the condition on the names it fails, for every type: one parameter and two parameters with
      one signature. */
  lemma ColonNamesCollide(typ: string)
    ensures var one := [Param("a:" + ToTerraform(typ) + ",b", typ, "", "")];
            var two := [Param("a", typ, "", ""), Param("b", typ, "", "")];
            SignatureOf(one) == SignatureOf(two) && Spell(one) != Spell(two)
  {
    var t := ToTerraform(typ);
    var one := [Param("a:" + t + ",b", typ, "", "")];
    var two := [Param("a", typ, "", ""), Param("b", typ, "", "")];
    SignatureJoins(one);
    SignatureJoins(two);
    JoinCollides(t);
    assert Spell(one) == [Spelled("a:" + t + ",b", t)];
    assert Spell(two) == [Spelled("a", t), Spelled("b", t)];
  }
}
