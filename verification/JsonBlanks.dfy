/** What compaction makes no difference between: white space outside of strings and the escapes of the HTML
    characters inside of them. */
module JsonBlanks {
  import opened Json
  import opened JsonCompact

  /** Where a text stands at its end: outside of strings, in one, or behind a backslash in one. */
  datatype Spot = Outside | Inside | Escaped

  function Next(p: Spot, c: char): Spot {
    match p
    case Outside => if c == '\"' then Inside else Outside
    case Inside => if c == '\"' then Outside else if c == '\\' then Escaped else Inside
    case Escaped => Inside
  }

  function SpotAfter(p: Spot, s: string): Spot
    decreases |s|
  {
    if s == "" then p else SpotAfter(Next(p, s[0]), s[1..])
  }

  /** Compaction works piece by piece, as long as no escape is torn apart. */
  lemma {:induction false} OutsideConcat(a: string, b: string)
    requires SpotAfter(Outside, a) != Escaped
    ensures CompactOut(a + b) ==
            CompactOut(a) + if SpotAfter(Outside, a) == Outside then CompactOut(b) else CompactIn(b)
    decreases |a|
  {
    hide CompactIn, CompactOut, SpotAfter, IsWs;
    if a == "" {
      NothingOutside(b);
    } else {
      OutsideStep(a, b);
      if a[0] == '\"' {
        InsideConcat(a[1..], b);
      } else {
        OutsideConcat(a[1..], b);
      }
    }
  }

  lemma NothingOutside(b: string)
    ensures "" + b == b && CompactOut("") == "" && SpotAfter(Outside, "") == Outside
  {
  }

  lemma OutsideStep(a: string, b: string)
    requires a != ""
    ensures if a[0] == '\"' then
              && SpotAfter(Outside, a) == SpotAfter(Inside, a[1..])
              && CompactOut(a + b) == ['\"'] + CompactIn(a[1..] + b) && CompactOut(a) == ['\"'] + CompactIn(a[1..])
            else
              var c := if IsWs(a[0]) then "" else [a[0]];
              && SpotAfter(Outside, a) == SpotAfter(Outside, a[1..])
              && CompactOut(a + b) == c + CompactOut(a[1..] + b) && CompactOut(a) == c + CompactOut(a[1..])
  {
    assert (a + b)[1..] == a[1..] + b;
  }

  lemma {:induction false} InsideConcat(a: string, b: string)
    requires SpotAfter(Inside, a) != Escaped
    ensures CompactIn(a + b) == CompactIn(a) + if SpotAfter(Inside, a) == Outside then CompactOut(b) else CompactIn(b)
    decreases |a|
  {
    hide CompactIn, CompactOut, SpotAfter, CompactEscapes, Hex4;
    if a == "" {
      NothingInside(b);
    } else if a[0] == '\\' {
      Torn(a);
      InsideConcat(a[2..], b);
      EscapeStep(a, b);
    } else if a[0] == '\"' {
      QuoteStep(a, b);
      OutsideConcat(a[1..], b);
    } else {
      CharStep(a, b);
      InsideConcat(a[1..], b);
    }
  }

  lemma NothingInside(b: string)
    ensures "" + b == b && CompactIn("") == "" && SpotAfter(Inside, "") == Inside
  {
  }

  lemma QuoteStep(a: string, b: string)
    requires a != "" && a[0] == '\"'
    ensures SpotAfter(Inside, a) == SpotAfter(Outside, a[1..])
    ensures CompactIn(a + b) == ['\"'] + CompactOut(a[1..] + b) && CompactIn(a) == ['\"'] + CompactOut(a[1..])
  {
    assert (a + b)[1..] == a[1..] + b;
  }

  lemma CharStep(a: string, b: string)
    requires a != "" && a[0] != '\"' && a[0] != '\\'
    ensures SpotAfter(Inside, a) == SpotAfter(Inside, a[1..])
    ensures var c := if CompactEscapes(a[0]) then ['\\', 'u'] + Hex4(a[0] as int) else [a[0]];
            CompactIn(a + b) == c + CompactIn(a[1..] + b) && CompactIn(a) == c + CompactIn(a[1..])
  {
    hide Hex4;
    assert (a + b)[1..] == a[1..] + b;
  }

  lemma Torn(a: string)
    requires a != "" && a[0] == '\\' && SpotAfter(Inside, a) != Escaped
    ensures |a| >= 2 && SpotAfter(Inside, a) == SpotAfter(Inside, a[2..])
  {
    assert SpotAfter(Inside, a) == SpotAfter(Escaped, a[1..]);
    if |a| >= 2 {
      assert a[1..][1..] == a[2..];
    }
  }

  lemma EscapeStep(a: string, b: string)
    requires |a| >= 2 && a[0] == '\\'
    ensures CompactIn(a + b) == a[..2] + CompactIn(a[2..] + b) && CompactIn(a) == a[..2] + CompactIn(a[2..])
  {
    assert (a + b)[2..] == a[2..] + b && (a + b)[..2] == a[..2];
  }

  lemma {:induction false} BlankCompact(w: string)
    requires forall i :: 0 <= i < |w| ==> w[i] == ' ' || w[i] == '\t' || w[i] == '\n' || w[i] == '\r'
    ensures CompactOut(w) == ""
  {
    if w != "" {
      BlankCompact(w[1..]);
    }
  }

  lemma {:induction false} BlankStaysOutside(w: string)
    requires forall i :: 0 <= i < |w| ==> w[i] == ' ' || w[i] == '\t' || w[i] == '\n' || w[i] == '\r'
    ensures SpotAfter(Outside, w) == Outside
  {
    if w != "" {
      BlankStaysOutside(w[1..]);
    }
  }

  /** White space outside of strings makes no difference. */
  lemma BlankIgnored(a: string, w: string, b: string)
    requires SpotAfter(Outside, a) == Outside
    requires forall i :: 0 <= i < |w| ==> w[i] == ' ' || w[i] == '\t' || w[i] == '\n' || w[i] == '\r'
    ensures CompactOut(a + w + b) == CompactOut(a + b)
  {
    hide CompactOut, CompactIn, SpotAfter;
    assert a + w + b == a + (w + b);
    OutsideConcat(a, w + b);
    OutsideConcat(a, b);
    BlankStaysOutside(w);
    OutsideConcat(w, b);
    BlankCompact(w);
  }

  /** Inside of strings the HTML characters and the line separators are the same as their escapes. */
  lemma EscapeIgnored(a: string, c: char, b: string)
    requires SpotAfter(Outside, a) == Inside
    requires c == '<' || c == '>' || c == '&' || c == '\U{2028}' || c == '\U{2029}'
    ensures CompactOut(a + [c] + b) == CompactOut(a + (['\\', 'u'] + Hex4(c as int)) + b)
  {
    hide CompactOut, CompactIn, SpotAfter, Hex4;
    var e := ['\\', 'u'] + Hex4(c as int);
    assert a + [c] + b == a + ([c] + b) && a + e + b == a + (e + b);
    OutsideConcat(a, [c] + b);
    OutsideConcat(a, e + b);
    SpecialEscaped(c, b);
    EscapeCopied(Hex4(c as int), b);
  }

  lemma SpecialEscaped(c: char, b: string)
    requires CompactEscapes(c)
    ensures CompactIn([c] + b) == ['\\', 'u'] + Hex4(c as int) + CompactIn(b)
  {
    hide Hex4;
    assert ([c] + b)[1..] == b;
  }

  lemma EscapeCopied(h: string, b: string)
    requires IsHex4(h) && |h| == 4
    ensures CompactIn(['\\', 'u'] + h + b) == ['\\', 'u'] + h + CompactIn(b)
  {
    hide CompactIn;
    assert ['\\', 'u'] + h + b == ['\\', 'u'] + (h + b);
    BackslashStep('u', h + b);
    assert forall i :: 0 <= i < |h| ==> PlainInside(h[i]);
    InsideRun(h, b);
  }
}
