/** When two documents mean the same, tree by tree. */
module JsonEquality {
  import opened Common
  import opened Json
  import opened JsonText
  import opened JsonNumbers
  import opened RawJson

  /** The last member of its key, the one that counts. */
  predicate LastMember(ms: seq<Member>, i: nat) {
    i < |ms| && forall j :: i < j < |ms| ==> ms[j].key != ms[i].key
  }

  predicate HasKey(ms: seq<Member>, key: string) {
    exists i :: 0 <= i < |ms| && ms[i].key == key
  }

  /** Equal documents: of one kind; booleans, strings and numbers equal; arrays of one length, item by item;
      objects of the same keys with equal last values. */
  ghost predicate Same(x: Json, y: Json)
    decreases x, 0
  {
    match (x, y)
    case (JNull, JNull) => true
    case (JBool(a), JBool(b)) => a == b
    case (JNum(s), JNum(t)) => SameNumber(s, t)
    case (JStr(s), JStr(t)) => s == t
    case (JArr(xs), JArr(ys)) => |xs| == |ys| && forall i :: 0 <= i < |xs| ==> Same(xs[i], ys[i])
    case (JObj(ms), JObj(ns)) =>
      && (forall i :: 0 <= i < |ms| && LastMember(ms, i) ==> Matched(ms[i], ns))
      && (forall k :: 0 <= k < |ns| ==> HasKey(ms, ns[k].key))
    case _ => false
  }

  /** The last member of the same key has an equal value. */
  ghost predicate Matched(m: Member, ns: seq<Member>)
    decreases m, 0
  {
    exists k :: 0 <= k < |ns| && LastMember(ns, k) && ns[k].key == m.key && Same(m.value, ns[k].value)
  }

  lemma {:induction false} ItemsMean(items: seq<Json>)
    ensures var vs := MeaningOfItems(items);
            |vs| == |items| && forall i :: 0 <= i < |items| ==> vs[i] == Meaning(items[i])
  {
    hide Meaning;
    if items != [] {
      ItemsMean(items[1..]);
    }
  }

  lemma {:induction false} LastOfKey(ms: seq<Member>, key: string) returns (i: nat)
    requires HasKey(ms, key)
    ensures LastMember(ms, i) && ms[i].key == key
  {
    var n := |ms| - 1;
    if ms[n].key == key {
      i := n;
    } else {
      var before := ms[..n];
      var j :| 0 <= j < |ms| && ms[j].key == key;
      assert before[j].key == key;
      i := LastOfKey(before, key);
      assert forall j :: i < j < n ==> before[j] == ms[j];
    }
  }

  lemma HasKeyStep(ms: seq<Member>, key: string)
    requires ms != []
    ensures HasKey(ms, key) <==> key == ms[|ms| - 1].key || HasKey(ms[..|ms| - 1], key)
  {
    var n := |ms| - 1;
    var before := ms[..n];
    if HasKey(ms, key) && key != ms[n].key {
      var j :| 0 <= j < |ms| && ms[j].key == key;
      assert before[j].key == key;
    }
    if HasKey(before, key) {
      var j :| 0 <= j < |before| && before[j].key == key;
      assert ms[j].key == key;
    }
  }

  lemma {:induction false} KeysMean(ms: seq<Member>, key: string)
    ensures key in MeaningOfMembers(ms) <==> HasKey(ms, key)
  {
    hide Meaning, HasKey;
    if ms == [] {
      NoKey(key);
    } else {
      HasKeyStep(ms, key);
      KeysMean(ms[..|ms| - 1], key);
    }
  }

  lemma NoKey(key: string)
    ensures !HasKey([], key)
  {
  }

  lemma {:induction false} LastMeans(ms: seq<Member>, i: nat)
    requires LastMember(ms, i)
    ensures ms[i].key in MeaningOfMembers(ms) && MeaningOfMembers(ms)[ms[i].key] == Meaning(ms[i].value)
  {
    hide Meaning;
    var n := |ms| - 1;
    if i < n {
      var before := ms[..n];
      assert before[i] == ms[i] && forall j :: i < j < n ==> before[j] == ms[j];
      LastMeans(before, i);
    }
  }

  lemma {:induction false} ArraysExactly(xs: seq<Json>, ys: seq<Json>)
    requires forall i :: 0 <= i < |xs| && i < |ys| ==> (Meaning(xs[i]) == Meaning(ys[i]) <==> Same(xs[i], ys[i]))
    ensures Meaning(JArr(xs)) == Meaning(JArr(ys)) <==> Same(JArr(xs), JArr(ys))
  {
    ItemsMean(xs);
    ItemsMean(ys);
    ArrayMeans(xs);
    ArrayMeans(ys);
    hide Meaning;
    SameArrays(xs, ys);
    SameItems(MeaningOfItems(xs), MeaningOfItems(ys));
  }

  lemma ArrayMeans(xs: seq<Json>)
    ensures Meaning(JArr(xs)) == ArrValue(MeaningOfItems(xs))
  {
  }

  lemma SameArrays(xs: seq<Json>, ys: seq<Json>)
    ensures Same(JArr(xs), JArr(ys)) <==> |xs| == |ys| && forall i :: 0 <= i < |xs| ==> Same(xs[i], ys[i])
  {
  }

  lemma ObjectMeans(ms: seq<Member>)
    ensures Meaning(JObj(ms)) == ObjValue(MeaningOfMembers(ms))
  {
  }

  lemma {:induction false} MatchedExactly(m: Member, ns: seq<Member>)
    requires forall k :: 0 <= k < |ns| ==> (Meaning(m.value) == Meaning(ns[k].value) <==> Same(m.value, ns[k].value))
    ensures Matched(m, ns) <==>
            m.key in MeaningOfMembers(ns) && MeaningOfMembers(ns)[m.key] == Meaning(m.value)
  {
    hide Meaning, MeaningOfMembers, LastMember, HasKey, Same;
    KeysMean(ns, m.key);
    if HasKey(ns, m.key) {
      var k := LastOfKey(ns, m.key);
      LastIsMember(ns, k);
      LastMeans(ns, k);
    }
    if Matched(m, ns) {
      var k :| 0 <= k < |ns| && LastMember(ns, k) && ns[k].key == m.key && Same(m.value, ns[k].value);
      LastMeans(ns, k);
    }
  }

  lemma LastIsMember(ms: seq<Member>, i: nat)
    requires LastMember(ms, i)
    ensures i < |ms|
  {
  }

  lemma SameObjects(ms: seq<Member>, ns: seq<Member>)
    ensures Same(JObj(ms), JObj(ns)) <==>
            && (forall i :: 0 <= i < |ms| && LastMember(ms, i) ==> Matched(ms[i], ns))
            && (forall k :: 0 <= k < |ns| ==> HasKey(ms, ns[k].key))
  {
    hide LastMember, Matched, HasKey;
  }

  lemma KeyThere(ms: seq<Member>, k: nat)
    requires k < |ms|
    ensures HasKey(ms, ms[k].key)
  {
  }

  lemma {:induction false} ObjectsExactly(ms: seq<Member>, ns: seq<Member>)
    requires forall i, k :: 0 <= i < |ms| && 0 <= k < |ns| ==>
               (Meaning(ms[i].value) == Meaning(ns[k].value) <==> Same(ms[i].value, ns[k].value))
    ensures Meaning(JObj(ms)) == Meaning(JObj(ns)) <==> Same(JObj(ms), JObj(ns))
  {
    hide Meaning, MeaningOfMembers, LastMember, HasKey, Same, Matched;
    ObjectMeans(ms);
    ObjectMeans(ns);
    SameObjects(ms, ns);
    var a, b := MeaningOfMembers(ms), MeaningOfMembers(ns);
    forall i | 0 <= i < |ms| && LastMember(ms, i)
      ensures ms[i].key in a && a[ms[i].key] == Meaning(ms[i].value)
      ensures Matched(ms[i], ns) <==> ms[i].key in b && b[ms[i].key] == Meaning(ms[i].value)
    {
      LastMeans(ms, i);
      MatchedExactly(ms[i], ns);
    }
    if Meaning(JObj(ms)) == Meaning(JObj(ns)) {
      forall k | 0 <= k < |ns| ensures HasKey(ms, ns[k].key) {
        KeyThere(ns, k);
        KeysMean(ns, ns[k].key);
        KeysMean(ms, ns[k].key);
      }
    }
    if Same(JObj(ms), JObj(ns)) {
      forall key | key in a ensures key in b && b[key] == a[key] {
        KeysMean(ms, key);
        var i := LastOfKey(ms, key);
        LastIsMember(ms, i);
      }
      forall key | key in b ensures key in a {
        KeysMean(ns, key);
        var k := LastOfKey(ns, key);
        LastIsMember(ns, k);
        KeysMean(ms, key);
      }
      assert a == b;
    }
  }

  /** Documents mean the same exactly if they are equal tree by tree. */
  lemma {:induction false} MeaningExactly(x: Json, y: Json)
    requires Printable(x) && Printable(y)
    ensures Meaning(x) == Meaning(y) <==> Same(x, y)
    decreases x
  {
    match (x, y)
    case (JNum(s), JNum(t)) =>
      NumberMeans(s, t);
    case (JArr(xs), JArr(ys)) =>
      forall i | 0 <= i < |xs| && i < |ys| ensures Meaning(xs[i]) == Meaning(ys[i]) <==> Same(xs[i], ys[i]) {
        MeaningExactly(xs[i], ys[i]);
      }
      ArraysExactly(xs, ys);
    case (JObj(ms), JObj(ns)) =>
      forall i, k | 0 <= i < |ms| && 0 <= k < |ns|
        ensures Meaning(ms[i].value) == Meaning(ns[k].value) <==> Same(ms[i].value, ns[k].value)
      {
        MeaningExactly(ms[i].value, ns[k].value);
      }
      ObjectsExactly(ms, ns);
    case _ =>
      OtherKinds(x, y);
  }

  lemma NumberMeans(s: string, t: string)
    requires IsNumber(s) && IsNumber(t)
    ensures Meaning(JNum(s)) == Meaning(JNum(t)) <==> Same(JNum(s), JNum(t))
  {
    hide NumberValue, SameNumber, IsNumber;
    NumbersExactly(s, t);
  }

  lemma OtherKinds(x: Json, y: Json)
    requires !(x.JNum? && y.JNum?) && !(x.JArr? && y.JArr?) && !(x.JObj? && y.JObj?)
    ensures Meaning(x) == Meaning(y) <==> Same(x, y)
  {
    hide NumberValue, SameNumber;
  }

  // ----- What the parser returns -----

  lemma {:induction false} ValuePrintable(s: string)
    ensures ParseValue(s).Ok? ==> Printable(ParseValue(s).value)
    decreases |s|, 1
  {
    hide IsNumber, ParseStr, ParseKey;
    var t := SkipWs(s);
    if t != "" && t[0] == '[' {
      ItemsPrintable(t[1..]);
    } else if t != "" && t[0] == '{' {
      MembersPrintable(t[1..]);
    }
  }

  lemma {:induction false} ItemsPrintable(s: string)
    ensures ParseItems(s).Ok? ==> forall i :: 0 <= i < |ParseItems(s).value| ==> Printable(ParseItems(s).value[i])
    decreases |s|, 2
  {
    hide ParseValue, Printable;
    ValuePrintable(s);
    if ParseValue(s).Ok? {
      var t := SkipWs(ParseValue(s).rest);
      if t != "" {
        ItemsPrintable(t[1..]);
      }
    }
  }

  lemma {:induction false} MembersPrintable(s: string)
    ensures ParseMembers(s).Ok? ==>
              forall i :: 0 <= i < |ParseMembers(s).value| ==> Printable(ParseMembers(s).value[i].value)
    decreases |s|, 2
  {
    hide ParseValue, ParseKey, Printable;
    if ParseKey(s).Ok? {
      var u := ParseKey(s).rest;
      ValuePrintable(u);
      if ParseValue(u).Ok? {
        var t := SkipWs(ParseValue(u).rest);
        if t != "" {
          MembersPrintable(t[1..]);
        }
      }
    }
  }

  /** RawJSONEqual: both values are empty, or both are documents and equal tree by tree. */
  lemma RawEqualExactly(a: string, b: string)
    ensures RawEqual(a, b) <==>
            if a == "" || b == "" then a == b
            else ParseText(a).Some? && ParseText(b).Some? && Same(ParseText(a).value, ParseText(b).value)
  {
    hide Meaning, Same, ParseValue, Printable;
    ValuePrintable(a);
    ValuePrintable(b);
    if ParseText(a).Some? && ParseText(b).Some? {
      MeaningExactly(ParseText(a).value, ParseText(b).value);
    }
  }
}
