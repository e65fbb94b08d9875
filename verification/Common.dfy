/** Values and string helpers shared by the modules of the model. */
module Common {

  datatype Option<+T> = None | Some(value: T) {
    predicate IsFailure() {
      None?
    }

    function PropagateFailure<U>(): Option<U>
      requires None?
    {
      None
    }

    function Extract(): T
      requires Some?
    {
      value
    }
  }

  /** A value of the Terraform plugin framework. */
  datatype TF<+T> = Null | Unknown | Known(value: T)

  /** ValueString(): the empty string unless the value is known. */
  function ValueString(v: TF<string>): string {
    if v.Known? then v.value else ""
  }

  /** ValueBool(): false unless the value is known. */
  function ValueBool(v: TF<bool>): bool {
    v.Known? && v.value
  }

  /** Unicode White_Space, the characters strings.TrimSpace removes. */
  predicate IsSpace(c: char) {
    var n := c as int;
    9 <= n <= 13 || n == 32 || n == 0x85 || n == 0xA0 || n == 0x1680 || 0x2000 <= n <= 0x200A ||
    n == 0x2028 || n == 0x2029 || n == 0x202F || n == 0x205F || n == 0x3000
  }

  /** The characters one by one. */
  lemma SpacesExactly(c: char)
    ensures IsSpace(c) <==>
            c in "\t\n\U{B}\U{C}\r \U{85}\U{A0}\U{1680}\U{2000}\U{2001}\U{2002}\U{2003}\U{2004}\U{2005}\U{2006}" ||
            c in "\U{2007}\U{2008}\U{2009}\U{200A}\U{2028}\U{2029}\U{202F}\U{205F}\U{3000}"
  {
  }

  function TrimLeft(s: string): string {
    if s != "" && IsSpace(s[0]) then TrimLeft(s[1..]) else s
  }

  function TrimRight(s: string): string {
    if s != "" && IsSpace(s[|s| - 1]) then TrimRight(s[..|s| - 1]) else s
  }

  /** strings.TrimSpace. */
  function Trim(s: string): string {
    TrimRight(TrimLeft(s))
  }

  predicate Trimmed(s: string) {
    s == "" || (!IsSpace(s[0]) && !IsSpace(s[|s| - 1]))
  }

  lemma {:induction false} TrimRightFacts(s: string)
    ensures TrimRight(s) <= s
    ensures TrimRight(s) == "" || !IsSpace(TrimRight(s)[|TrimRight(s)| - 1])
    ensures forall i :: |TrimRight(s)| <= i < |s| ==> IsSpace(s[i])
  {
    if s != "" && IsSpace(s[|s| - 1]) {
      TrimRightFacts(s[..|s| - 1]);
    }
  }

  lemma {:induction false} TrimLeftFacts(s: string) returns (k: nat)
    ensures k <= |s| && TrimLeft(s) == s[k..]
    ensures k == |s| || !IsSpace(s[k])
    ensures forall i :: 0 <= i < k ==> IsSpace(s[i])
  {
    if s != "" && IsSpace(s[0]) {
      var j := TrimLeftFacts(s[1..]);
      k := j + 1;
      assert s[1..][j..] == s[k..];
      forall i | 0 <= i < k ensures IsSpace(s[i]) {
        assert i == 0 || s[i] == s[1..][i - 1];
      }
    } else {
      k := 0;
    }
  }

  /** Trimming yields a trimmed substring, and leaves exactly the trimmed strings unchanged. */
  lemma TrimFacts(s: string)
    ensures Trimmed(Trim(s))
    ensures |Trim(s)| < |s| || Trim(s) == s
    ensures Trim(s) == s <==> Trimmed(s)
  {
    var k := TrimLeftFacts(s);
    TrimRightFacts(TrimLeft(s));
    if Trimmed(s) && s != "" {
      assert TrimLeft(s) == s;
      assert TrimRight(s) == s;
    }
  }

  /** Sequences are equal exactly if they have the same items. */
  lemma SameItems<T>(a: seq<T>, b: seq<T>)
    ensures a == b <==> |a| == |b| && forall i :: 0 <= i < |a| ==> a[i] == b[i]
  {
  }
}
