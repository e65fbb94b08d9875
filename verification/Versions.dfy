/** Server version strings: parsing, and the order they are compared in. */
module Versions {
  import opened Common
  import opened Numbers

  datatype Version = Version(major: int, minor: int, patch: int)

  // ----- Parsing -----

  /** strings.TrimPrefix with "v". */
  function DropV(s: string): string {
    if s != "" && s[0] == 'v' then s[1..] else s
  }

  predicate StartsSuffix(c: char) {
    c == '-' || c == '+'
  }

  /** The text before a pre-release or build suffix. */
  function Cut(s: string): string {
    if s == "" || StartsSuffix(s[0]) then "" else [s[0]] + Cut(s[1..])
  }

  /** strings.Split at the dots. */
  function Split(s: string): (parts: seq<string>)
    ensures parts != []
  {
    if s == "" then [""]
    else if s[0] == '.' then [""] + Split(s[1..])
    else
      var rest := Split(s[1..]);
      [[s[0]] + rest[0]] + rest[1..]
  }

  /** A component; blank space around it is allowed. */
  function Number(part: string): Option<int> {
    var n :- Atoi(Trim(part));
    if n < 0 then None else Some(n)
  }

  /** A missing component counts as zero. */
  function Component(parts: seq<string>, i: nat): Option<int> {
    if i < |parts| then Number(parts[i]) else Some(0)
  }

  function Components(v: string): Option<Version> {
    var s := Cut(v);
    if s == "" then None
    else
      var major :- Component(Split(s), 0);
      var minor :- Component(Split(s), 1);
      var patch :- Component(Split(s), 2);
      Some(Version(major, minor, patch))
  }

  function Parse(version: string): Option<Version> {
    Components(DropV(Trim(version)))
  }

  /** parseServerVersion: the first three components, any further ones unread. */
  method ParseServerVersion(version: string) returns (r: Option<Version>)
    ensures r == Parse(version)
  {
    hide Split, Cut, Trim, Number;
    var v := Cut(DropV(Trim(version)));
    if v == "" {
      return None;
    }
    var parts := Split(v);
    var parsed := new int[3](_ => 0);
    for i := 0 to |parts|
      invariant forall k :: 0 <= k < 3 ==> if k < i then Component(parts, k) == Some(parsed[k]) else parsed[k] == 0
    {
      if i >= parsed.Length {
        break;
      }
      var n := Number(parts[i]);
      if n.None? {
        return None;
      }
      parsed[i] := n.value;
    }
    assert forall k :: 0 <= k < 3 ==> Component(parts, k) == Some(parsed[k]);
    r := Some(Version(parsed[0], parsed[1], parsed[2]));
  }

  predicate Valid(version: string) {
    Parse(version).Some?
  }

  // ----- The order -----

  predicate NotOlder(a: Version, b: Version) {
    if a.major != b.major then a.major > b.major
    else if a.minor != b.minor then a.minor > b.minor
    else a.patch >= b.patch
  }

  /** ServerVersionAtLeast: an unparsable version is older than everything. */
  predicate AtLeast(version: string, wanted: Version) {
    Valid(version) && NotOlder(Parse(version).value, wanted)
  }

  /** The components as the digits of one number. */
  function Rank(v: Version, base: int): int {
    (v.major * base + v.minor) * base + v.patch
  }

  predicate Below(v: Version, base: int) {
    0 <= v.major < base && 0 <= v.minor < base && 0 <= v.patch < base
  }

  lemma DigitsCompare(a: int, b: int, x: int, y: int, base: int)
    requires 0 <= x < base && 0 <= y < base
    ensures a * base + x >= b * base + y <==> a > b || (a == b && x >= y)
  {
    if a > b {
      Scaled(a, b, base);
    } else if a < b {
      Scaled(b, a, base);
    }
  }

  lemma {:induction false} Scaled(a: int, b: int, base: nat)
    requires a > b
    ensures a * base >= b * base + base
    decreases a - b
  {
    if a > b + 1 {
      Scaled(a - 1, b, base);
    }
    assert a * base == (a - 1) * base + base;
  }

  /** The comparison is the order of the numbers the components spell in any base they fit in: a total
      order, lexicographic in major, minor, patch. */
  lemma OrderIsLexicographic(a: Version, b: Version, base: int)
    requires Below(a, base) && Below(b, base)
    ensures NotOlder(a, b) <==> Rank(a, base) >= Rank(b, base)
  {
    DigitsCompare(a.major, b.major, a.minor, b.minor, base);
    DigitsCompare(b.major, a.major, b.minor, a.minor, base);
    DigitsCompare(a.major * base + a.minor, b.major * base + b.minor, a.patch, b.patch, base);
  }

  /** A server that is recent enough stays so when it gets newer or when less is wanted. */
  lemma AtLeastIsMonotone(older: string, newer: string, wanted: Version, less: Version)
    requires AtLeast(older, wanted) && Valid(newer)
    requires NotOlder(Parse(newer).value, Parse(older).value) && NotOlder(wanted, less)
    ensures AtLeast(newer, less)
  {
    hide Parse;
  }

  // ----- Blank space -----

  predicate Blank(w: string) {
    forall i :: 0 <= i < |w| ==> IsSpace(w[i])
  }

  lemma {:induction false} TrimLeftPadded(w: string, s: string)
    requires Blank(w)
    ensures TrimLeft(w + s) == TrimLeft(s)
  {
    if w == "" {
      assert w + s == s;
    } else {
      TrimLeftPadded(w[1..], s);
      assert (w + s)[1..] == w[1..] + s;
    }
  }

  lemma {:induction false} TrimRightPadded(s: string, w: string)
    requires Blank(w)
    ensures TrimRight(s + w) == TrimRight(s)
  {
    if w == "" {
      assert s + w == s;
    } else {
      var n := |w| - 1;
      TrimRightPadded(s, w[..n]);
      assert (s + w)[..|s| + n] == s + w[..n];
    }
  }

  lemma {:induction false} TrimLeftConcat(s: string, w: string)
    requires !Blank(s)
    ensures TrimLeft(s + w) == TrimLeft(s) + w
  {
    if IsSpace(s[0]) {
      assert s == [s[0]] + s[1..];
      TrimLeftConcat(s[1..], w);
      assert (s + w)[1..] == s[1..] + w;
    }
  }

  lemma {:induction false} TrimLeftBlank(w: string)
    requires Blank(w)
    ensures TrimLeft(w) == ""
  {
    if w != "" {
      TrimLeftBlank(w[1..]);
    }
  }

  /** Blank space on both sides makes no difference to what remains after trimming. */
  lemma TrimPadded(w: string, s: string, x: string)
    requires Blank(w) && Blank(x)
    ensures Trim(w + s + x) == Trim(s)
  {
    assert w + s + x == w + (s + x);
    TrimLeftPadded(w, s + x);
    if Blank(s) {
      TrimLeftBlank(s + x);
      TrimLeftBlank(s);
    } else {
      TrimLeftConcat(s, x);
      TrimRightPadded(TrimLeft(s), x);
    }
  }

  /** A string is its trimmed text between blank space. */
  lemma TrimParts(s: string) returns (w: string, x: string)
    ensures Blank(w) && Blank(x) && s == w + Trim(s) + x
    ensures Trimmed(Trim(s))
  {
    hide IsSpace, TrimLeft, TrimRight;
    var k := TrimLeftFacts(s);
    w := s[..k];
    var t, u := TrimLeft(s), Trim(s);
    TrimRightFacts(t);
    x := t[|u|..];
    assert t == u + x;
    assert s == w + t == w + u + x;
    TrimFacts(s);
  }

  lemma TrimmedStays(w: string, t: string, x: string)
    requires Blank(w) && Blank(x) && Trimmed(t)
    ensures Trim(w + t + x) == t
  {
    TrimPadded(w, t, x);
    TrimFacts(t);
  }

  // ----- Blank space around the components -----

  lemma {:induction false} CutBlank(w: string, s: string)
    requires Blank(w)
    ensures Cut(w + s) == w + Cut(s)
  {
    if w == "" {
      assert w + s == s && w + Cut(s) == Cut(s);
    } else {
      CutBlank(w[1..], s);
      assert (w + s)[1..] == w[1..] + s;
      assert [w[0]] + (w[1..] + Cut(s)) == w + Cut(s);
    }
  }

  /** A suffix is dropped, and so is what follows in the text before it. */
  lemma {:induction false} CutSuffix(s: string, x: string)
    requires x != "" && StartsSuffix(x[0])
    ensures Cut(s + x) == Cut(s)
  {
    if s == "" {
      assert s + x == x;
    } else {
      assert (s + x)[0] == s[0] && (s + x)[1..] == s[1..] + x;
      CutSuffix(s[1..], x);
    }
  }

  /** Blank space after the text survives the cut, or goes with the suffix. */
  lemma {:induction false} CutBlankBehind(s: string, x: string) returns (y: string)
    requires Blank(x)
    ensures Blank(y) && Cut(s + x) == Cut(s) + y
  {
    if s == "" {
      CutBlank(x, "");
      assert s + x == x && x + "" == x;
      y := x;
    } else {
      assert (s + x)[0] == s[0] && (s + x)[1..] == s[1..] + x;
      y := CutBlankBehind(s[1..], x);
      if StartsSuffix(s[0]) {
        y := "";
      }
    }
  }

  lemma {:induction false} SplitBlank(w: string, s: string)
    requires Blank(w)
    ensures Split(w + s) == [w + Split(s)[0]] + Split(s)[1..]
  {
    if w == "" {
      assert w + s == s && w + Split(s)[0] == Split(s)[0];
    } else {
      SplitBlank(w[1..], s);
      assert (w + s)[1..] == w[1..] + s;
      assert [w[0]] + (w[1..] + Split(s)[0]) == w + Split(s)[0];
    }
  }

  /** The same parts, the last one with more text behind it. */
  predicate Longer(a: seq<string>, b: seq<string>, x: string) {
    a != [] && |a| == |b| && b[|b| - 1] == a[|a| - 1] + x && forall i :: 0 <= i < |a| - 1 ==> a[i] == b[i]
  }

  function Prepend(c: char, parts: seq<string>): seq<string>
    requires parts != []
  {
    if c == '.' then [""] + parts else [[c] + parts[0]] + parts[1..]
  }

  lemma SplitCons(c: char, t: string)
    ensures Split([c] + t) == Prepend(c, Split(t))
  {
    assert ([c] + t)[1..] == t;
  }

  lemma PrependLonger(c: char, a: seq<string>, b: seq<string>, x: string)
    requires Longer(a, b, x)
    ensures Longer(Prepend(c, a), Prepend(c, b), x)
  {
    if |a| == 1 {
      assert [c] + (a[0] + x) == ([c] + a[0]) + x;
    }
  }

  lemma SplitNothing(x: string)
    requires Blank(x)
    ensures Longer(Split(""), Split(x), x)
  {
    SplitBlank(x, "");
    assert x + "" == x && "" + x == x;
  }

  lemma {:induction false} SplitBlankBehind(s: string, x: string)
    requires Blank(x)
    ensures Longer(Split(s), Split(s + x), x)
  {
    hide Split, Longer, Prepend, Blank;
    if s == "" {
      SplitNothing(x);
      assert s + x == x;
    } else {
      SplitBlankBehind(s[1..], x);
      SplitCons(s[0], s[1..]);
      SplitCons(s[0], s[1..] + x);
      assert [s[0]] + s[1..] == s && [s[0]] + (s[1..] + x) == s + x;
      PrependLonger(s[0], Split(s[1..]), Split(s[1..] + x), x);
    }
  }

  lemma NumberPadded(w: string, part: string, x: string)
    requires Blank(w) && Blank(x)
    ensures Number(w + part + x) == Number(part)
  {
    TrimPadded(w, part, x);
  }

  /** Blank space before and after a text makes no difference to any component. */
  lemma ComponentPadded(w: string, s: string, x: string, i: nat)
    requires Blank(w) && Blank(x)
    ensures Component(Split(w + s + x), i) == Component(Split(s), i)
  {
    hide Split, Number;
    var a := Split(s);
    SplitBlankBehind(s, x);
    SplitBlank(w, s + x);
    assert w + s + x == w + (s + x);
    if i < |a| {
      var before, behind := if i == 0 then w else "", if i == |a| - 1 then x else "";
      assert a[i] + "" == a[i];
      assert Split(s + x)[i] == a[i] + behind;
      assert "" + (a[i] + behind) == a[i] + behind;
      assert Split(w + s + x)[i] == before + (a[i] + behind) == before + a[i] + behind;
      NumberPadded(before, a[i], behind);
    }
  }

  lemma BlankHasNoComponents(w: string)
    requires Blank(w)
    ensures Components(w) == None
  {
    CutBlank(w, "");
    assert w + "" == w;
    SplitBlank(w, "");
    assert Split(w) == [w];
    TrimPadded(w, "", "");
    assert w + "" + "" == w;
    assert Atoi("").None?;
  }

  /** Blank space around a version text makes no difference at all. */
  lemma ComponentsPadded(w: string, s: string, x: string)
    requires Blank(w) && Blank(x)
    ensures Components(w + s + x) == Components(s)
  {
    hide Split, Component, Cut;
    var y := CutBlankBehind(s, x);
    CutBlank(w, s + x);
    assert w + s + x == w + (s + x);
    var c := Cut(s);
    assert w + (c + y) == w + c + y;
    if c == "" {
      assert w + c + y == w + y;
      BlankComponents(w + s + x, w + y);
    } else {
      ComponentPadded(w, c, y, 0);
      ComponentPadded(w, c, y, 1);
      ComponentPadded(w, c, y, 2);
    }
  }

  lemma BlankComponents(s: string, w: string)
    requires Cut(s) == w && Blank(w)
    ensures Components(s) == None
  {
    BlankHasNoComponents(w);
    CutBlank(w, "");
    assert w + "" == w;
  }

  // ----- Blind to suffixes and to a leading v -----

  lemma DropVConcat(t: string, x: string)
    requires t != ""
    ensures DropV(t + x) == DropV(t) + x
  {
  }

  lemma SuffixedComponents(v: string, w: string, x: string)
    requires Blank(w) && x != "" && StartsSuffix(x[0])
    ensures Components(v + w + x) == Components(v)
  {
    CutSuffix(v + w, x);
    ComponentsPadded("", v, w);
    assert "" + v + w == v + w;
  }

  lemma SuffixKept(x: string)
    requires x != "" && StartsSuffix(x[0])
    ensures TrimRight(x) != "" && TrimRight(x)[0] == x[0]
  {
    TrimRightFacts(x);
  }

  /** A pre-release or build suffix makes no difference, whatever the version. */
  lemma BlindToSuffixes(version: string, suffix: string)
    requires suffix != "" && StartsSuffix(suffix[0])
    ensures Parse(version + suffix) == Parse(version)
  {
    hide Components, TrimLeft, TrimRight, DropV;
    var w, x := TrimParts(version);
    var t := Trim(version);
    SuffixTrimmed(w, t, x, suffix);
    if t == "" {
      assert t + x + TrimRight(suffix) == x + TrimRight(suffix);
    }
  }

  lemma SuffixTrimmed(w: string, t: string, x: string, suffix: string)
    requires Blank(w) && Blank(x) && Trimmed(t) && suffix != "" && StartsSuffix(suffix[0])
    ensures Components(DropV(Trim(w + t + x + suffix))) == Components(DropV(t))
  {
    hide Components;
    SuffixKept(suffix);
    TrimRightFacts(suffix);
    var kept := TrimRight(suffix);
    var y := suffix[|kept|..];
    if t == "" {
      assert w + t + x + suffix == (w + x) + kept + y;
      TrimmedStays(w + x, kept, y);
      SuffixedComponents("", "", kept);
      assert "" + "" + kept == kept;
    } else {
      assert w + t + x + suffix == w + (t + x + kept) + y;
      TrimmedStays(w, t + x + kept, y);
      assert t + x + kept == t + (x + kept);
      DropVConcat(t, x + kept);
      SuffixedComponents(DropV(t), x, kept);
      assert DropV(t) + (x + kept) == DropV(t) + x + kept;
    }
  }

  lemma LetterIsNoNumber(part: string)
    requires part != "" && part[0] == 'v'
    ensures Number(part) == None
  {
    TrimRightFacts(part);
    assert TrimLeft(part) == part;
    assert Trim(part) != "" && Trim(part)[0] == 'v';
  }

  lemma SecondV(s: string)
    requires s != "" && s[0] == 'v'
    ensures Components(s) == None
  {
    var c := Cut(s);
    assert c[0] == 'v';
    assert Split(c)[0] != "" && Split(c)[0][0] == 'v';
    LetterIsNoNumber(Split(c)[0]);
  }

  lemma NothingParses()
    ensures Components("") == None
  {
  }

  lemma VDropped(s: string)
    ensures DropV("v" + s) == s
  {
    assert ("v" + s)[1..] == s;
  }

  /** A leading v makes no difference either, except that a second one makes the version unparsable. */
  lemma BlindToLeadingV(version: string)
    ensures Parse("v" + version) ==
            if Trim(version) != "" && Trim(version)[0] == 'v' then None else Parse(version)
  {
    hide Components, TrimLeft, TrimRight;
    var w, x := TrimParts(version);
    var t := Trim(version);
    if t == "" {
      NothingParses();
      VDropped("");
      assert "v" + "" == "v" && DropV("") == "";
      assert "v" + version == "" + "v" + (w + x);
      TrimmedStays("", "v", w + x);
    } else {
      assert "v" + version == "" + ("v" + w + t) + x;
      TrimmedStays("", "v" + w + t, x);
      VDropped(w + t);
      assert "v" + (w + t) == "v" + w + t;
      ComponentsPadded(w, t, "");
      assert w + t + "" == w + t;
      if t[0] == 'v' {
        SecondV(t);
      }
    }
  }

  // ----- Round trip -----

  lemma NumberOfDigits(n: int)
    requires 0 <= n <= MAX_INT
    ensures Number(Digits(n)) == Some(n)
  {
    DigitsStay(Digits(n));
    AtoiDigits(n);
  }

  lemma {:induction false} CutDigits(d: string, s: string)
    requires AllDecimal(d)
    ensures Cut(d + s) == d + Cut(s)
  {
    if d == "" {
      assert d + s == s && d + Cut(s) == Cut(s);
    } else {
      CutDigits(d[1..], s);
      assert (d + s)[1..] == d[1..] + s;
      assert [d[0]] + (d[1..] + Cut(s)) == d + Cut(s);
    }
  }

  lemma {:induction false} SplitDigits(d: string, s: string)
    requires AllDecimal(d) && (s == "" || s[0] == '.')
    ensures Split(d + s) == [d] + (if s == "" then [] else Split(s[1..]))
  {
    hide Split;
    if d == "" {
      assert d + s == s;
      SplitFront(s);
    } else {
      SplitDigits(d[1..], s);
      SplitCons(d[0], d[1..] + s);
      assert [d[0]] + (d[1..] + s) == d + s && [d[0]] + d[1..] == d;
    }
  }

  lemma SplitFront(s: string)
    requires s == "" || s[0] == '.'
    ensures Split(s) == [""] + (if s == "" then [] else Split(s[1..]))
  {
  }

  /** The usual spelling. */
  function Show(v: Version): string
    requires 0 <= v.major && 0 <= v.minor && 0 <= v.patch
  {
    Digits(v.major) + ("." + (Digits(v.minor) + ("." + Digits(v.patch))))
  }

  lemma ShowSplits(v: Version)
    requires 0 <= v.major && 0 <= v.minor && 0 <= v.patch
    ensures Cut(Show(v)) == Show(v) && Split(Show(v)) == [Digits(v.major), Digits(v.minor), Digits(v.patch)]
  {
    hide Cut, Split, Digits;
    var a, b, c := Digits(v.major), Digits(v.minor), Digits(v.patch);
    var back := "." + c;
    var middle := "." + (b + back);
    CutDigits(a, middle);
    CutDot(b + back);
    CutDigits(b, back);
    CutDot(c);
    CutDigits(c, "");
    CutNothing();
    assert c + "" == c;
    SplitDigits(a, middle);
    SplitDigits(b, back);
    SplitDigits(c, "");
    assert middle[1..] == b + back && back[1..] == c;
  }

  lemma CutDot(s: string)
    ensures Cut("." + s) == "." + Cut(s)
  {
    assert ("." + s)[1..] == s;
  }

  lemma CutNothing()
    ensures Cut("") == ""
  {
  }

  lemma ShowTrimmed(v: Version)
    requires 0 <= v.major && 0 <= v.minor && 0 <= v.patch
    ensures Show(v) != "" && Show(v)[0] != 'v' && Trim(Show(v)) == Show(v)
  {
    var s := Show(v);
    var d := Digits(v.patch);
    assert s[0] == Digits(v.major)[0];
    assert s[|s| - 1] == d[|d| - 1];
    TrimFacts(s);
  }

  /** Every version parses back from its usual spelling. */
  lemma ShowParses(v: Version)
    requires 0 <= v.major <= MAX_INT && 0 <= v.minor <= MAX_INT && 0 <= v.patch <= MAX_INT
    ensures Parse(Show(v)) == Some(v)
  {
    hide Cut, Split, Show, Number, Trim;
    ShowTrimmed(v);
    ShowSplits(v);
    NumberOfDigits(v.major);
    NumberOfDigits(v.minor);
    NumberOfDigits(v.patch);
  }

  /** A missing component counts as zero. */
  lemma ShortParses(major: nat, minor: nat)
    requires major <= MAX_INT && minor <= MAX_INT
    ensures Parse(Digits(major)) == Some(Version(major, 0, 0))
    ensures Parse(Digits(major) + ("." + Digits(minor))) == Some(Version(major, minor, 0))
  {
    hide Cut, Split, Number, Trim, Digits;
    var a, b := Digits(major), Digits(minor);
    ShortTrimmed(a, b);
    CutNothing();
    CutDigits(a, "");
    CutDigits(b, "");
    CutDot(b);
    CutDigits(a, "." + b);
    assert a + "" == a && b + "" == b;
    SplitDigits(a, "");
    SplitDigits(b, "");
    SplitDigits(a, "." + b);
    assert ("." + b)[1..] == b;
    NumberOfDigits(major);
    NumberOfDigits(minor);
  }

  lemma ShortTrimmed(a: string, b: string)
    requires a != "" && b != "" && AllDecimal(a) && AllDecimal(b)
    ensures Trim(a) == a && DropV(a) == a
    ensures Trim(a + ("." + b)) == a + ("." + b) && DropV(a + ("." + b)) == a + ("." + b)
  {
    var s := a + ("." + b);
    TrimFacts(a);
    assert s[0] == a[0] && s[|s| - 1] == b[|b| - 1];
    TrimFacts(s);
  }

  /** A version in its usual spelling is recent enough exactly if it comes not before the wanted one, major
      before minor before patch. */
  lemma AtLeastExactly(v: Version, wanted: Version)
    requires 0 <= v.major <= MAX_INT && 0 <= v.minor <= MAX_INT && 0 <= v.patch <= MAX_INT
    ensures AtLeast(Show(v), wanted) <==>
            v.major > wanted.major ||
            (v.major == wanted.major &&
             (v.minor > wanted.minor || (v.minor == wanted.minor && v.patch >= wanted.patch)))
  {
    hide Parse, Show;
    ShowParses(v);
  }
}
