/** Which parameter lists share their signature with another list. */
module SignatureCollisions {
  import opened Json
  import opened JsonNesting
  import opened DataTypes
  import opened RawJson
  import opened Functions
  import opened SignatureLaws

  predicate AllTypes(b: seq<Spelled>) {
    forall i :: 0 <= i < |b| ==> TypeText(b[i].typ)
  }

  /** Another list of accepted types has the same signature. */
  ghost predicate Collides(a: seq<Spelled>) {
    exists b: seq<Spelled> :: b != a && AllTypes(b) && Join(b) == Join(a)
  }

  /** The name holds a colon, an accepted type and a comma, one right behind the other. */
  predicate Splits(name: string) {
    exists i, k :: 0 <= i < k < |name| && name[i] == ':' && name[k] == ',' && TypeText(name[i + 1..k])
  }

  // ----- The last type -----

  lemma PrimitiveIsPlain(t: string)
    requires IsPrimitive(t)
    ensures forall k :: 0 <= k < |t| ==> Neutral(t[k]) && t[k] != ':'
  {
    var n := NameLen(t);
    forall k | 0 <= k < |t| ensures Neutral(t[k]) && t[k] != ':' {
      if k >= n {
        assert t[n..][k - n] == t[k];
        if 0 < k - n < |t[n..]| - 1 {
          ArgumentsInside(t[n..], k - n);
        }
      }
    }
  }

  /** No type text stands behind a colon of another type text. */
  lemma NoTypeBehindColon(t: string, w: string, u: string)
    requires TypeText(t) && TypeText(u)
    ensures t != w + [':'] + u
  {
    hide IsPrimitive, ParseText;
    if IsPrimitive(t) {
      PrimitiveIsPlain(t);
      assert (w + [':'] + u)[|w|] == ':';
    } else if IsPrimitive(u) {
      PrimitiveIsPlain(u);
      NoPlainBehindColon(t, w, u);
    } else {
      NoObjectBehindColon(t, w, u);
    }
  }

  /** So the last type of a signature can be told, whatever the names hold. */
  lemma LastType(n: string, t: string, m: string, u: string)
    requires TypeText(t) && TypeText(u) && n + [':'] + t == m + [':'] + u
    ensures n == m && t == u
  {
    hide TypeText;
    var s := n + [':'] + t;
    assert s[|n|] == ':' && s[|m|] == ':' && s[|n| + 1..] == t && s[|m| + 1..] == u && s[..|n|] == n && s[..|m|] == m;
    if |n| < |m| {
      Behind(s, |n|, |m|);
      NoTypeBehindColon(t, s[|n| + 1..|m|], u);
    } else if |m| < |n| {
      Behind(s, |m|, |n|);
      NoTypeBehindColon(u, s[|m| + 1..|n|], t);
    }
  }

  lemma Behind(s: string, i: nat, k: nat)
    requires i < k < |s| && s[k] == ':'
    ensures s[i + 1..] == s[i + 1..k] + [':'] + s[k + 1..]
  {
  }

  // ----- All lists -----

  /** What stands before the last type and its colon. */
  function Before(b: seq<Spelled>): string
    requires b != []
  {
    if |b| == 1 then b[0].name else b[0].name + [':'] + (b[0].typ + [',']) + Before(b[1..])
  }

  lemma {:induction false} JoinEnds(b: seq<Spelled>)
    requires b != []
    ensures Join(b) == Before(b) + [':'] + b[|b| - 1].typ
  {
    var n, t := b[0].name, b[0].typ;
    if |b| == 1 {
      assert t + "" == t;
    } else {
      var rest := b[1..];
      JoinEnds(rest);
      assert b[|b| - 1] == rest[|rest| - 1];
      Regroup(n + [':'], t, Before(rest), b[|b| - 1].typ);
    }
  }

  lemma Regroup(front: string, t: string, before: string, last: string)
    ensures front + (t + ([','] + (before + [':'] + last))) == front + (t + [',']) + before + [':'] + last
  {
  }

  lemma OneJoins(name: string, t: string)
    ensures Join([Spelled(name, t)]) == name + [':'] + t && Before([Spelled(name, t)]) == name
  {
    assert t + "" == t;
  }

  /** Two parameters or more can always be read as one with a long name. */
  lemma LongNameCollides(a: seq<Spelled>)
    requires |a| >= 2 && AllTypes(a)
    ensures Collides(a)
  {
    var t := a[|a| - 1].typ;
    var b := [Spelled(Before(a), t)];
    JoinEnds(a);
    OneJoins(Before(a), t);
    assert |b| == 1 && AllTypes(b);
  }

  lemma SplitCollides(name: string, t: string, i: nat, k: nat)
    requires TypeText(t) && i < k < |name| && name[i] == ':' && name[k] == ',' && TypeText(name[i + 1..k])
    ensures Collides([Spelled(name, t)])
  {
    hide TypeText;
    var a, z := Spelled(name[..i], name[i + 1..k]), Spelled(name[k + 1..], t);
    var b := [a, z];
    assert b[1..] == [z];
    JoinEnds(b);
    OneJoins(name, t);
    SplitUp(name, i, k);
    assert Before(b) == a.name + [':'] + (a.typ + [',']) + z.name;
    assert AllTypes(b) && |b| == 2;
  }

  lemma SplitUp(name: string, i: nat, k: nat)
    requires i < k < |name| && name[i] == ':' && name[k] == ','
    ensures name == name[..i] + [':'] + (name[i + 1..k] + [',']) + name[k + 1..]
  {
  }

  lemma CollisionSplits(name: string, t: string, b: seq<Spelled>)
    requires TypeText(t) && AllTypes(b) && b != [Spelled(name, t)] && Join(b) == Join([Spelled(name, t)])
    ensures Splits(name)
  {
    hide TypeText;
    OneJoins(name, t);
    assert b != [];
    JoinEnds(b);
    LastType(name, t, Before(b), b[|b| - 1].typ);
    assert |b| == 1 ==> b == [Spelled(name, t)];
    var m, u := b[0].name, b[0].typ;
    assert name == m + [':'] + (u + [',']) + Before(b[1..]);
    var i, k := |m|, |m| + 1 + |u|;
    assert name[i] == ':' && name[k] == ',' && name[i + 1..k] == u;
  }

  /** A parameter shares its signature with another list of accepted types exactly if its name can be split
      in that way; a colon alone does no harm. */
  lemma CollidesExactly(name: string, t: string)
    requires TypeText(t)
    ensures Collides([Spelled(name, t)]) <==> Splits(name)
  {
    hide TypeText;
    var a := [Spelled(name, t)];
    if Splits(name) {
      var i, k :| 0 <= i < k < |name| && name[i] == ':' && name[k] == ',' && TypeText(name[i + 1..k]);
      SplitCollides(name, t, i, k);
    }
    if Collides(a) {
      var b: seq<Spelled> :| b != a && AllTypes(b) && Join(b) == Join(a);
      CollisionSplits(name, t, b);
    }
  }

  /** A signature determines the whole list of names and types, among all lists of accepted types, exactly if
      there is no parameter or a single one whose name does not split. */
  lemma DecodesExactly(a: seq<Spelled>)
    requires AllTypes(a)
    ensures !Collides(a) <==> |a| == 0 || (|a| == 1 && !Splits(a[0].name))
  {
    hide TypeText, Join;
    if a == [] {
      NoneJoins();
    } else if |a| == 1 {
      assert a == [Spelled(a[0].name, a[0].typ)];
      CollidesExactly(a[0].name, a[0].typ);
    } else {
      LongNameCollides(a);
    }
  }

  lemma NoneJoins()
    ensures !Collides([])
  {
    forall b: seq<Spelled> | b != [] ensures Join(b) != Join([]) {
      JoinEnds(b);
    }
  }

  // ----- Parameters -----

  /** Every accepted type text is shown for some raw value. */
  lemma TypeOf(t: string) returns (raw: string)
    requires TypeText(t)
    ensures ToTerraform(raw) == t
  {
    hide IsPrimitive, ParseText, Quote, ToTerraform;
    if IsPrimitive(t) {
      raw := Quote(t, true);
      QuoteText(t, true);
      QuoteNotEmpty(t);
      NameShown(raw, t);
    } else {
      raw := t;
      ObjectShown(t);
    }
  }

  lemma {:induction false} ParamsFor(b: seq<Spelled>) returns (ps: seq<Param>)
    requires AllTypes(b)
    ensures Spell(ps) == b
  {
    hide TypeText, ToTerraform;
    if b == [] {
      ps := [];
    } else {
      var raw := TypeOf(b[0].typ);
      var rest := ParamsFor(b[1..]);
      ps := [Param(b[0].name, raw, "", "")] + rest;
      assert forall i :: 0 < i < |b| ==> Spell(ps)[i] == Spell(rest)[i - 1];
    }
  }

  /** Other parameters of accepted types have the same signature. */
  ghost predicate Ambiguous(ps: seq<Param>) {
    exists qs: seq<Param> :: Spell(qs) != Spell(ps) && AllTypes(Spell(qs)) && SignatureOf(qs) == SignatureOf(ps)
  }

  /** Among all parameters of accepted types a signature determines the names and types exactly if there is
      no parameter, or a single one whose name does not split. */
  lemma SignatureDecodesExactly(ps: seq<Param>)
    requires AllTypes(Spell(ps))
    ensures !Ambiguous(ps) <==> |ps| == 0 || (|ps| == 1 && !Splits(ps[0].name))
  {
    hide AllTypes, Splits, Join, ToTerraform, SignatureOf;
    var a := Spell(ps);
    SignatureJoins(ps);
    DecodesExactly(a);
    if Collides(a) {
      var b: seq<Spelled> :| b != a && AllTypes(b) && Join(b) == Join(a);
      var qs := ParamsFor(b);
      SignatureJoins(qs);
    }
    if Ambiguous(ps) {
      var qs: seq<Param> :| Spell(qs) != a && AllTypes(Spell(qs)) && SignatureOf(qs) == SignatureOf(ps);
      SignatureJoins(qs);
    }
  }
}
