/** Which texts are shown as they were written. */
module ReconcilePlain {
  import opened Common
  import opened Json
  import opened DataTypes
  import opened DataTypeLaws
  import opened RawJson
  import opened SignatureLaws
  import opened ReconcileSpelling

  /** A text without blank space around it that is no quoted JSON string: one that is shown as it is written. */
  predicate Plain(t: string) {
    t != "" && Trimmed(t) && t[0] != '\"'
  }

  /** An accepted expression is shown as it was written exactly if it is plain. */
  lemma ShownAsWritten(value: string, raw: string)
    requires RawFromTerraform(value) == Some(raw)
    ensures ToTerraform(raw) == value <==> Plain(value)
  {
    hide ToTerraform, EncodeExpression;
    var t := Trim(value);
    TrimFacts(value);
    EncodeShows(t, raw);
    if t[0] == '\"' {
      QuotedShorter(t, raw);
    }
  }

  lemma QuotedShorter(t: string, raw: string)
    requires ParseText(raw).Some? && ParseText(raw) == ParseText(t) && ParseText(raw).value.JStr? && raw != ""
    ensures |ToTerraform(raw)| < |t|
  {
    ParsedStringsShorter(t);
  }

  /** A shown type reads back to itself exactly if it is plain. */
  lemma TypeAsWritten(value: string, raw: string)
    requires TypeFromTerraform(value) == Some(raw)
    ensures (ToTerraform(raw) == value <==> Plain(value)) && TypeText(ToTerraform(raw))
  {
    hide ToTerraform, EncodeExpression;
    ReadEncodes(value);
    ShownAsWritten(value, raw);
    AcceptedTypeText(value, raw);
  }

  /** What a shown type reads back to is plain. */
  lemma RereadPlain(t: string, raw: string)
    requires TypeText(t) && TypeFromTerraform(t) == Some(raw)
    ensures Plain(ToTerraform(raw))
  {
    hide IsPrimitive, ParseText, DataTypes.Parse, Quote, ToTerraform;
    var u := Trim(t);
    TrimFacts(t);
    PrimitiveStarts(t);
    if IsPrimitive(t) {
      NameStart(t);
      QuoteText(u, true);
      QuoteNotEmpty(u);
      NameShown(raw, u);
    } else {
      ObjectShown(u);
    }
  }

  lemma NameStart(t: string)
    requires IsPrimitive(t) && Trim(t) != ""
    ensures Trim(t)[0] == t[0]
  {
    TrimRightFacts(TrimLeft(t));
    assert TrimLeft(t) == t;
  }
}
