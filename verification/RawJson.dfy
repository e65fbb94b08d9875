/** Raw JSON values: how a Terraform expression becomes one, how one becomes a Terraform string, and
    when two of them mean the same. */
module RawJson {
  import opened Common
  import opened Json
  import opened JsonText
  import opened JsonCompact
  import opened DataTypes

  // ----- Meaning -----

  /** What the decoder makes of a document: objects are maps, numbers are numbers. */
  datatype Value =
    | NullValue
    | BoolValue(b: bool)
    | NumValue(n: real)
    | StrValue(s: string)
    | ArrValue(items: seq<Value>)
    | ObjValue(members: map<string, Value>)

  function Decimal(digits: string): nat {
    if digits == "" then 0
    else
      var n := |digits| - 1;
      10 * Decimal(digits[..n]) + (if IsDigit(digits[n]) then digits[n] as int - '0' as int else 0)
  }

  function Pow10(n: nat): (r: real)
    ensures r > 0.0
  {
    if n == 0 then 1.0 else 10.0 * Pow10(n - 1)
  }

  function Exponent(t: string): int {
    if |t| < 2 then 0
    else if t[1] == '-' then -(Decimal(t[2..]) as int)
    else if t[1] == '+' then Decimal(t[2..])
    else Decimal(t[1..])
  }

  /** m times ten to the power e. */
  function Scaled(m: nat, e: int): real {
    if e >= 0 then m as real * Pow10(e) else m as real / Pow10(-e)
  }

  /** The value of the digits before the point with what follows them. */
  function ValueBefore(whole: string, f: string): real {
    if f != "" && f[0] == '.' then
      var k := DigitsLen(f[1..]);
      Scaled(Decimal(whole + f[1..][..k]), Exponent(f[1..][k..]) - k)
    else Scaled(Decimal(whole), Exponent(f))
  }

  function UnsignedValue(u: string): real {
    ValueBefore(u[..DigitsLen(u)], u[DigitsLen(u)..])
  }

  /** The exact decimal value of a number. */
  function NumberValue(t: string): real {
    if t != "" && t[0] == '-' then -UnsignedValue(t[1..]) else UnsignedValue(t)
  }

  function Meaning(j: Json): Value
    decreases j, 1
  {
    match j
    case JNull => NullValue
    case JBool(b) => BoolValue(b)
    case JNum(text) => NumValue(NumberValue(text))
    case JStr(s) => StrValue(s)
    case JArr(items) => ArrValue(MeaningOfItems(items))
    case JObj(members) => ObjValue(MeaningOfMembers(members))
  }

  function MeaningOfItems(items: seq<Json>): seq<Value>
    decreases items, 0
  {
    if items == [] then [] else [Meaning(items[0])] + MeaningOfItems(items[1..])
  }

  function MeaningOfMembers(members: seq<Member>): map<string, Value>
    decreases members, 0
  {
    if members == [] then map[]
    else
      var n := |members| - 1;
      MeaningOfMembers(members[..n])[members[n].key := Meaning(members[n].value)]
  }

  /** RawJSONEqual: two raw values mean the same; only an empty one equals an empty one. */
  predicate RawEqual(a: string, b: string) {
    if a == "" || b == "" then |a| == |b|
    else
      match (ParseText(a), ParseText(b))
      case (Some(x), Some(y)) => Meaning(x) == Meaning(y)
      case _ => false
  }

  /** preferRaw: the previous spelling of a value the server returned in equivalent form. */
  function PreferRaw(previous: string, returned: string): string {
    if previous == "" || !RawEqual(previous, returned) then returned else previous
  }

  // ----- Terraform strings -----

  /** DataTypeToString: a JSON string is shown bare, everything else as its trimmed text. */
  function ToTerraform(raw: string): string {
    if raw == "" then ""
    else
      match ParseText(raw)
      case Some(JStr(s)) => s
      case Some(JNull) => ""
      case _ => Trim(raw)
  }

  /** encodeDataTypeExpression. */
  function EncodeExpression(trimmed: string): Option<string> {
    if "{" <= trimmed || "[" <= trimmed || "\"" <= trimmed then
      if ParseText(trimmed).Some? then Some(trimmed) else None
    else Some(Quote(trimmed, true))
  }

  /** DataTypeFromString: a data type expression, held to the rules of a column type. */
  function TypeFromTerraform(value: string): Option<string> {
    var trimmed := Trim(value);
    if trimmed == "" || Parse(trimmed).None? then None else EncodeExpression(trimmed)
  }

  /** RawJSONFromString: an argument document, without data type validation. */
  function RawFromTerraform(value: string): Option<string> {
    var trimmed := Trim(value);
    if trimmed == "" then None else EncodeExpression(trimmed)
  }

  // ----- Laws -----

  lemma QuoteText(s: string, html: bool)
    ensures ParseText(Quote(s, html)) == Some(JStr(s))
  {
    QuoteParses(s, html, "");
    assert Quote(s, html) + "" == Quote(s, html);
  }

  lemma TextStart(s: string)
    requires s != "" && ParseText(s).Some?
    ensures s[0] == '{' ==> ParseText(s).value.JObj?
    ensures s[0] == '[' ==> ParseText(s).value.JArr?
    ensures s[0] == '\"' ==> ParseText(s).value.JStr?
  {
  }

  /** A value and its compacted form mean the same. */
  lemma CompactEqual(a: string, b: string)
    requires ParseText(a).Some? && ParseText(b).Some? && CompactOut(a) == CompactOut(b)
    ensures RawEqual(a, b)
  {
    CompactKeepsMeaning(a);
    CompactKeepsMeaning(b);
  }

  /** A Terraform string that came from the encoder is shown as it was written. */
  lemma EncodeShows(trimmed: string, raw: string)
    requires trimmed != "" && Trimmed(trimmed) && EncodeExpression(trimmed) == Some(raw)
    ensures raw != "" && ParseText(raw).Some? && !ParseText(raw).value.JNull?
    ensures if trimmed[0] == '\"' then ParseText(raw) == ParseText(trimmed) && ParseText(raw).value.JStr?
            else ToTerraform(raw) == trimmed
  {
    TrimFacts(trimmed);
    if trimmed[0] == '{' || trimmed[0] == '[' || trimmed[0] == '\"' {
      TextStart(trimmed);
    } else {
      QuoteText(trimmed, true);
    }
  }

  /** What is read from Terraform: a document as it stands, anything else as the JSON string of it. */
  lemma ReadExactly(value: string)
    ensures var t, raw := Trim(value), RawFromTerraform(value);
            if t == "" then raw.None?
            else if t[0] == '{' || t[0] == '[' || t[0] == '\"' then
              raw == if ParseText(t).Some? then Some(t) else None
            else raw.Some? && ParseText(raw.value) == Some(JStr(t))
    ensures var t := Trim(value);
            TypeFromTerraform(value) == if t == "" || Parse(t).None? then None else RawFromTerraform(value)
  {
    hide Trim, Parse, Quote, ParseText;
    QuoteText(Trim(value), true);
  }

  /** Whether a raw value is one the encoder produces. */
  ghost predicate Encoded(raw: string) {
    exists t: string :: t != "" && Trimmed(t) && EncodeExpression(t) == Some(raw)
  }

  lemma MeaningKinds(x: Json, y: Json)
    requires Meaning(x) == Meaning(y)
    ensures x.JStr? || y.JStr? ==> x == y
    ensures x.JNull? <==> y.JNull?
  {
  }

  lemma RawEqualSymmetric(a: string, b: string)
    ensures RawEqual(a, b) == RawEqual(b, a)
  {
  }

  lemma RawEqualTransitive(a: string, b: string, c: string)
    requires RawEqual(a, b) && RawEqual(b, c)
    ensures RawEqual(a, c)
  {
  }

  /** The chosen value means what the returned one means; strings are even equal. */
  lemma ChosenMeaning(previous: string, returned: string) returns (x: Json, y: Json)
    requires ParseText(returned).Some? && returned != ""
    ensures PreferRaw(previous, returned) != ""
    ensures ParseText(PreferRaw(previous, returned)) == Some(x) && ParseText(returned) == Some(y)
    ensures Meaning(x) == Meaning(y) && (x.JStr? || y.JStr? ==> x == y) && (x.JNull? <==> y.JNull?)
  {
    x, y := ParseText(PreferRaw(previous, returned)).value, ParseText(returned).value;
    MeaningKinds(x, y);
  }

  /** A document that is neither a string nor null. */
  predicate IsDocument(raw: string) {
    raw != "" && ParseText(raw).Some? && !ParseText(raw).value.JStr? && !ParseText(raw).value.JNull?
  }

  lemma EncodedDocument(t: string, raw: string)
    requires t != "" && Trimmed(t) && EncodeExpression(t) == Some(raw) && IsDocument(raw)
    ensures raw == t && ToTerraform(raw) == t
  {
    TrimFacts(t);
    if t[0] != '{' && t[0] != '[' && t[0] != '\"' {
      QuoteText(t, true);
    }
  }

  lemma DocumentStable(previous: string, returned: string, next: string)
    requires previous == "" || Encoded(previous)
    requires IsDocument(returned) && IsDocument(PreferRaw(previous, returned))
    requires RawFromTerraform(ToTerraform(PreferRaw(previous, returned))) == Some(next)
    ensures ToTerraform(PreferRaw(next, returned)) == ToTerraform(PreferRaw(previous, returned))
  {
    var chosen := PreferRaw(previous, returned);
    var t := Trim(chosen);
    TrimFacts(chosen);
    TrimFacts(t);
    if chosen != returned {
      var t0: string :| t0 != "" && Trimmed(t0) && EncodeExpression(t0) == Some(previous);
      EncodedDocument(t0, previous);
      TrimFacts(previous);
      assert next == previous;
    } else if RawEqual(next, returned) {
      var x, y := ChosenMeaning(next, returned);
      EncodedDocument(t, next);
    }
  }

  /** Writing the shown value back and comparing it with the same server value changes nothing: what
      the next refresh shows is what this one showed. The previous value is one the encoder produced,
      or absent. */
  lemma PreferStable(previous: string, returned: string, next: string)
    requires previous == "" || Encoded(previous)
    requires RawFromTerraform(ToTerraform(PreferRaw(previous, returned))) == Some(next)
    ensures ToTerraform(PreferRaw(next, returned)) == ToTerraform(PreferRaw(previous, returned))
  {
    if returned != "" && ParseText(returned).Some? {
      var x, y := ChosenMeaning(previous, returned);
      var x', y' := ChosenMeaning(next, returned);
      if !y.JStr? && !y.JNull? {
        DocumentStable(previous, returned, next);
      }
    }
  }
}
