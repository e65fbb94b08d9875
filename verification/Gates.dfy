/** The cached server version, and the checks that keep values of Gravitino 1.3.1 from older servers. */
module Gates {
  import opened Common
  import opened Versions

  const RELEASE_131 := Version(1, 3, 1)

  // ----- The restricted values -----

  /** unicode.ToUpper as far as it yields ASCII: besides a to z, the dotless i and the long s. */
  function UpperChar(c: char): char {
    if 'a' <= c <= 'z' then (c as int - 'a' as int + 'A' as int) as char
    else if c == '\U{0131}' then 'I'
    else if c == '\U{017F}' then 'S'
    else c
  }

  /** unicode.ToLower as far as it yields ASCII: besides A to Z, the dotted I and the Kelvin sign. */
  function LowerChar(c: char): char {
    if 'A' <= c <= 'Z' then (c as int - 'A' as int + 'a' as int) as char
    else if c == '\U{0130}' then 'i'
    else if c == '\U{212A}' then 'k'
    else c
  }

  function Upper(s: string): string {
    seq(|s|, i requires 0 <= i < |s| => UpperChar(s[i]))
  }

  function Lower(s: string): string {
    seq(|s|, i requires 0 <= i < |s| => LowerChar(s[i]))
  }

  /** ObjectTypeRequiresGravitino131. */
  predicate RestrictedObject(objectType: string) {
    var canonical := Upper(Trim(objectType));
    canonical == "VIEW" || canonical == "FUNCTION"
  }

  /** IndexTypeRequiresGravitino131. */
  predicate RestrictedIndex(indexType: string) {
    var name := Lower(Trim(indexType));
    name == "data_skipping_minmax" || name == "data_skipping_bloom_filter" || name == "data_skipping_set"
  }

  /** A letter in either case, or one of the four letters beyond ASCII whose other case is that letter. */
  predicate CaseOf(c: char, upper: char, lower: char) {
    c == upper || c == lower || (upper == 'I' && c == '\U{0131}') || (upper == 'S' && c == '\U{017F}')
  }

  /** VIEW and FUNCTION in any case and with blank space around them are restricted, and nothing else. */
  lemma RestrictedObjectsExactly(objectType: string)
    ensures var t := Trim(objectType);
            RestrictedObject(objectType) <==>
            || (|t| == 4 && CaseOf(t[0], 'V', 'v') && CaseOf(t[1], 'I', 'i') && CaseOf(t[2], 'E', 'e') &&
                CaseOf(t[3], 'W', 'w'))
            || (|t| == 8 && CaseOf(t[0], 'F', 'f') && CaseOf(t[1], 'U', 'u') && CaseOf(t[2], 'N', 'n') &&
                CaseOf(t[3], 'C', 'c') && CaseOf(t[4], 'T', 't') && CaseOf(t[5], 'I', 'i') && CaseOf(t[6], 'O', 'o') &&
                CaseOf(t[7], 'N', 'n'))
  {
    hide Trim;
    var t := Trim(objectType);
    var u := Upper(t);
    assert |t| == 4 ==> u == [u[0], u[1], u[2], u[3]];
    assert |t| == 8 ==> u == [u[0], u[1], u[2], u[3], u[4], u[5], u[6], u[7]];
  }

  /** The lower case of a character of an index type: letters by themselves, everything else unchanged. */
  predicate LowerCaseOf(c: char, l: char) {
    c == l || ('a' <= l <= 'z' && c as int == l as int - 32) || (l == 'i' && c == '\U{0130}') ||
    (l == 'k' && c == '\U{212A}')
  }

  predicate LowerCase(t: string, name: string) {
    |t| == |name| && forall i :: 0 <= i < |t| ==> LowerCaseOf(t[i], name[i])
  }

  lemma LowersExactly(t: string, name: string)
    requires forall i :: 0 <= i < |name| ==> !('A' <= name[i] <= 'Z') && name[i] < '\U{80}'
    ensures Lower(t) == name <==> LowerCase(t, name)
  {
    if Lower(t) == name {
      forall i | 0 <= i < |t| ensures LowerCaseOf(t[i], name[i]) {
        assert LowerChar(t[i]) == name[i];
      }
    }
    if LowerCase(t, name) {
      forall i | 0 <= i < |t| ensures LowerChar(t[i]) == name[i] {
        assert LowerCaseOf(t[i], name[i]);
      }
      assert Lower(t) == name;
    }
  }

  /** The three data skipping index types in any case and with blank space around them are restricted, and
      nothing else. */
  lemma RestrictedIndexesExactly(indexType: string)
    ensures RestrictedIndex(indexType) <==>
            || LowerCase(Trim(indexType), "data_skipping_minmax")
            || LowerCase(Trim(indexType), "data_skipping_bloom_filter")
            || LowerCase(Trim(indexType), "data_skipping_set")
  {
    hide Trim, Lower, LowerCase;
    LowersExactly(Trim(indexType), "data_skipping_minmax");
    LowersExactly(Trim(indexType), "data_skipping_bloom_filter");
    LowersExactly(Trim(indexType), "data_skipping_set");
  }

  datatype Index = Index(indexType: string, properties: map<string, string>)

  predicate RestrictedSpec(index: Index) {
    RestrictedIndex(index.indexType) || index.properties != map[]
  }

  // ----- The cache -----

  /** What a client does about the version, with the server's answer if it is asked: the probe at start, or
      a check, of values that are restricted or not. */
  datatype Operation = Detect(answer: Option<string>) | Check(restricted: bool, answer: Option<string>)

  /** The cache after an operation: nothing that cannot be compared is kept, and a check asks only when it
      has to. */
  function Cached(version: string, op: Operation): string {
    var kept := if op.answer.Some? && Valid(op.answer.value) then op.answer.value else version;
    if op.Check? && (!op.restricted || Valid(version)) then version else kept
  }

  class Client {
    var version: string

    /** Nothing, or a version that can be compared. */
    predicate Sound()
      reads this
    {
      version == "" || Valid(version)
    }

    constructor ()
      ensures Sound() && version == ""
    {
      version := "";
    }

    method DetectServerVersion(answer: Option<string>) returns (ok: bool)
      requires Sound()
      modifies this
      ensures Sound() && version == Cached(old(version), Detect(answer))
      ensures ok <==> answer.Some? && Valid(answer.value)
    {
      NothingIsInvalid();
      if answer.None? || !Valid(answer.value) {
        return false;
      }
      version := answer.value;
      ok := true;
    }

    /** A known version is used without asking; a new answer is kept if it can be compared, and returned even
        if not. */
    method ResolveServerVersion(answer: Option<string>) returns (r: Option<string>)
      requires Sound()
      modifies this
      ensures Sound() && version == Cached(old(version), Check(true, answer))
      ensures r == if old(version) != "" then Some(old(version)) else answer
      ensures r.Some? && Valid(r.value) ==> version == r.value
      ensures r.None? || !Valid(r.value) ==> version == ""
    {
      NothingIsInvalid();
      if Valid(version) {
        return Some(version);
      }
      if answer.None? {
        return None;
      }
      if Valid(answer.value) {
        version := answer.value;
      }
      r := answer;
    }

    /** The permissive gate: only a known older version refuses. */
    predicate AtLeast(wanted: Version)
      reads this
    {
      !Valid(version) || Versions.AtLeast(version, wanted)
    }

    /** A restricted metadata object type passes only against a version that parses and is 1.3.1 or newer. */
    method CheckMetadataObjectTypeSupported(objectType: string, answer: Option<string>) returns (ok: bool)
      requires Sound()
      modifies this
      ensures Sound() && version == Cached(old(version), Check(RestrictedObject(objectType), answer))
      ensures ok <==> !RestrictedObject(objectType) || Versions.AtLeast(version, Version(1, 3, 1))
    {
      if !RestrictedObject(objectType) {
        return true;
      }
      NothingIsInvalid();
      var r := ResolveServerVersion(answer);
      if r.None? {
        return false;
      }
      ok := Versions.AtLeast(r.value, RELEASE_131);
    }

    method CheckPolicyObjectTypesSupported(objectTypes: seq<string>, answer: Option<string>) returns (ok: bool)
      requires Sound()
      modifies this
      ensures Sound()
      ensures var restricted := exists i :: 0 <= i < |objectTypes| && RestrictedObject(objectTypes[i]);
              version == Cached(old(version), Check(restricted, answer)) &&
              (ok <==> !restricted || Versions.AtLeast(version, Version(1, 3, 1)))
    {
      var unsupported := [];
      for i := 0 to |objectTypes|
        invariant unsupported != [] <==> exists k :: 0 <= k < i && RestrictedObject(objectTypes[k])
      {
        if RestrictedObject(objectTypes[i]) {
          unsupported := unsupported + [Upper(Trim(objectTypes[i]))];
        }
      }
      if |unsupported| == 0 {
        return true;
      }
      NothingIsInvalid();
      var r := ResolveServerVersion(answer);
      if r.None? {
        return false;
      }
      ok := Versions.AtLeast(r.value, RELEASE_131);
    }

    method CheckIndexesSupported(indexes: seq<Index>, answer: Option<string>) returns (ok: bool)
      requires Sound()
      modifies this
      ensures Sound()
      ensures var restricted := exists i :: 0 <= i < |indexes| && RestrictedSpec(indexes[i]);
              version == Cached(old(version), Check(restricted, answer)) &&
              (ok <==> !restricted || Versions.AtLeast(version, Version(1, 3, 1)))
    {
      var restricted, hasProperties := [], false;
      for i := 0 to |indexes|
        invariant restricted != [] || hasProperties <==> exists k :: 0 <= k < i && RestrictedSpec(indexes[k])
      {
        if RestrictedIndex(indexes[i].indexType) {
          restricted := restricted + [Lower(Trim(indexes[i].indexType))];
        }
        if |indexes[i].properties| > 0 {
          hasProperties := true;
        }
      }
      if |restricted| == 0 && !hasProperties {
        return true;
      }
      NothingIsInvalid();
      var r := ResolveServerVersion(answer);
      if r.None? {
        return false;
      }
      ok := Versions.AtLeast(r.value, RELEASE_131);
    }
  }

  lemma NothingIsInvalid()
    ensures !Valid("")
  {
  }

  /** On a cache the client keeps, the permissive gate agrees with the comparison for every known version and
      lets an unknown one pass. */
  lemma PermissiveGate(c: Client, wanted: Version)
    requires c.Sound()
    ensures c.AtLeast(wanted) <==> c.version == "" || Versions.AtLeast(c.version, wanted)
  {
    NothingIsInvalid();
  }

  // ----- Whole runs -----

  /** The cache after a sequence of operations. */
  function Run(version: string, ops: seq<Operation>): string {
    if ops == [] then version else Cached(Run(version, ops[..|ops| - 1]), ops[|ops| - 1])
  }

  /** In every run the cache is empty or can be compared, and it is empty only as long as no answer that can
      be compared arrived when the server was asked. */
  lemma {:induction false} RunIsSound(ops: seq<Operation>)
    ensures Run("", ops) == "" || Valid(Run("", ops))
    ensures forall i | 0 <= i < |ops| && (ops[i].Check? ==> ops[i].restricted) && ops[i].answer.Some? ::
              Valid(ops[i].answer.value) ==> Run("", ops) != ""
  {
    hide Valid;
    NothingIsInvalid();
    if ops != [] {
      RunIsSound(ops[..|ops| - 1]);
    }
  }

  /** A known version never becomes unknown again, and only a new probe changes it. */
  lemma {:induction false} KnownStaysKnown(version: string, ops: seq<Operation>)
    requires Valid(version)
    ensures Valid(Run(version, ops))
    ensures (forall i :: 0 <= i < |ops| ==> ops[i].Check?) ==> Run(version, ops) == version
  {
    hide Valid;
    if ops != [] {
      KnownStaysKnown(version, ops[..|ops| - 1]);
    }
  }
}
