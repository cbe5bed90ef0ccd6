/** The enums ClassAnalyzer.AccessorType and ClassAnalyzer.AccessorAvailability. */
module Accessors {
  import opened Wrappers
  import opened AsciiText
  import opened Reflection

  /** The kinds of accessor method for a field `field` of type `Type`:
      none, `Type getField()`, `void setField(Type)` and `this withField(Type)`.
      The constructors are the Java constants NONE, GETTER, SETTER, WITHER. */
  datatype AccessorType = NoAccessor | Getter | Setter | Wither
  {
    /** Enum.ordinal(): the position in declaration order. */
    function Ordinal(): (n: nat)
      ensures n < 4
    {
      match this
      case NoAccessor => 0
      case Getter => 1
      case Setter => 2
      case Wither => 3
    }

    /** The prefix given to the enum constant's constructor. */
    function Prefix(): (p: string)
      ensures |p| <= 4
      ensures p == "" <==> this == NoAccessor
      ensures forall i :: 0 <= i < |p| ==> 'a' <= p[i] <= 'z'
    {
      match this
      case NoAccessor => ""
      case Getter => "get"
      case Setter => "set"
      case Wither => "with"
    }

    /** The flag given to the enum constant's constructor: the accessor
        writes the field, so the field must not be final. */
    predicate RequiresModifiableField()
      ensures RequiresModifiableField() ==> this != NoAccessor && this != Getter
    {
      match this
      case NoAccessor => false
      case Getter => false
      case Setter => true
      case Wither => true
    }

    /** getAccessorName: empty for NONE, otherwise the prefix, the field
        name's first letter in upper case, then the rest of the field name. */
    function AccessorName(field: FieldInfo): (r: string)
      ensures this == NoAccessor ==> r == ""
      ensures this != NoAccessor ==>
        |r| == |Prefix()| + |field.name|
        && r[..|Prefix()|] == Prefix()
        && r[|Prefix()|] == ToUpper(field.name[0])
        && r[|Prefix()| + 1..] == field.name[1..]
    {
      if this == NoAccessor then ""
      else Prefix() + [ToUpper(field.name[0])] + field.name[1..]
    }

    /** getAccessorParam: the field's type for SETTER and WITHER, null otherwise. */
    function AccessorParam(field: FieldInfo): (r: Option<TypeRef>)
      ensures r.Some? <==> RequiresModifiableField()
      ensures r.Some? ==> r.value == field.fieldType
    {
      if this == Setter || this == Wither then Some(field.fieldType) else None
    }
  }

  /** AccessorType.values(): the constants in declaration order. */
  function Values(): (vs: seq<AccessorType>)
    ensures |vs| == 4
    ensures forall t: AccessorType :: vs[t.Ordinal()] == t
  {
    [NoAccessor, Getter, Setter, Wither]
  }

  /** What `of` means: null gives NONE; otherwise the accessor type whose
      prefix equals the argument ignoring case, and NONE when none does. */
  ghost function Parse(prefix: Option<string>): (t: AccessorType)
    ensures prefix.None? ==> t == NoAccessor
    ensures t != NoAccessor ==> prefix.Some? && EqualsIgnoreCase(prefix.value, t.Prefix())
  {
    if prefix.Some? && exists t: AccessorType :: EqualsIgnoreCase(prefix.value, t.Prefix())
    then var t: AccessorType :| EqualsIgnoreCase(prefix.value, t.Prefix()); t
    else NoAccessor
  }

  /** No two accessor prefixes are equal ignoring case. */
  lemma PrefixesDistinctIgnoringCase(t: AccessorType, u: AccessorType)
    requires EqualsIgnoreCase(t.Prefix(), u.Prefix())
    ensures t == u
  {
    if t != u && |t.Prefix()| == |u.Prefix()| && |t.Prefix()| > 0 {
      CharEqualsIgnoreCaseIffSameUpper(t.Prefix()[0], u.Prefix()[0]);
    }
  }

  /** At most one accessor type matches a string, so Parse is well defined. */
  lemma MatchIsUnique(s: string, t: AccessorType, u: AccessorType)
    requires EqualsIgnoreCase(s, t.Prefix()) && EqualsIgnoreCase(s, u.Prefix())
    ensures t == u
  {
    EqualsIgnoreCaseSymmetric(s, t.Prefix());
    EqualsIgnoreCaseTransitive(t.Prefix(), s, u.Prefix());
    PrefixesDistinctIgnoringCase(t, u);
  }

  /** Parse returns the matching accessor type whenever there is one. */
  lemma ParseMatch(s: string, t: AccessorType)
    requires EqualsIgnoreCase(s, t.Prefix())
    ensures Parse(Some(s)) == t
  {
    var u := Parse(Some(s));
    MatchIsUnique(s, t, u);
  }

  /** AccessorType.of: a null prefix gives NONE; otherwise the first
      constant, in declaration order, whose prefix equals the argument
      ignoring case; NONE when there is none. */
  method Of(prefix: Option<string>) returns (t: AccessorType)
    ensures t == Parse(prefix)
  {
    if prefix.None? {
      return NoAccessor;
    }
    var values := Values();
    for i := 0 to |values|
      invariant forall k :: 0 <= k < i ==> !EqualsIgnoreCase(prefix.value, values[k].Prefix())
    {
      if EqualsIgnoreCase(prefix.value, values[i].Prefix()) {
        ParseMatch(prefix.value, values[i]);
        return values[i];
      }
    }
    forall t: AccessorType ensures !EqualsIgnoreCase(prefix.value, t.Prefix()) {
      assert values[t.Ordinal()] == t;
    }
    return NoAccessor;
  }

  /** Round trip: parsing the prefix of an accessor type gives that type. */
  lemma ParsePrefix(t: AccessorType)
    ensures Parse(Some(t.Prefix())) == t
  {
    EqualsIgnoreCaseReflexive(t.Prefix());
    ParseMatch(t.Prefix(), t);
  }

  /** A string equal ignoring case to one that parses to an accessor parses to the same accessor. */
  lemma ParseTransfer(s: string, s': string)
    requires EqualsIgnoreCase(s, s')
    ensures Parse(Some(s)) != NoAccessor ==> Parse(Some(s')) == Parse(Some(s))
  {
    var t := Parse(Some(s));
    if t != NoAccessor {
      EqualsIgnoreCaseSymmetric(s, s');
      EqualsIgnoreCaseTransitive(s', s, t.Prefix());
      ParseMatch(s', t);
    }
  }

  /** Parsing ignores case: strings equal ignoring case parse alike. */
  lemma ParseIgnoresCase(s: string, s': string)
    requires EqualsIgnoreCase(s, s')
    ensures Parse(Some(s)) == Parse(Some(s'))
  {
    ParseTransfer(s, s');
    EqualsIgnoreCaseSymmetric(s, s');
    ParseTransfer(s', s);
  }

  /** A string that matches no prefix, and a null prefix, give NONE; the
      empty string gives NONE because it is NONE's own prefix. */
  lemma ParseFallback(prefix: Option<string>)
    requires prefix.None? || forall t: AccessorType :: !EqualsIgnoreCase(prefix.value, t.Prefix())
    ensures Parse(prefix) == NoAccessor
  {
  }

  lemma ParseExamples()
    ensures Parse(Some("GET")) == Getter
    ensures Parse(Some("With")) == Wither
    ensures Parse(Some("")) == NoAccessor
    ensures Parse(Some("getter")) == NoAccessor
    ensures Parse(None) == NoAccessor
  {
    ParseMatch("GET", Getter);
    ParseMatch("With", Wither);
    ParseMatch("", NoAccessor);
    assert forall t: AccessorType :: !EqualsIgnoreCase("getter", t.Prefix());
  }

  /** The parameter is present exactly for SETTER and WITHER, and exactly
      then the field must be modifiable. */
  lemma ParamPresentIffModifiable(t: AccessorType, field: FieldInfo)
    ensures t.AccessorParam(field).Some? <==> (t == Setter || t == Wither)
    ensures t.RequiresModifiableField() <==> (t == Setter || t == Wither)
  {
  }

  /** The accessor name of an accessor type starts with a prefix that parses
      back to that type. */
  lemma AccessorNamePrefixParses(t: AccessorType, field: FieldInfo)
    ensures Parse(Some(t.AccessorName(field)[..|t.Prefix()|])) == t
  {
    ParsePrefix(t);
  }

  /** Two different accessor types never produce the same accessor name. */
  lemma AccessorNamesDistinct(t: AccessorType, u: AccessorType, f: FieldInfo, g: FieldInfo)
    requires t != u
    ensures t.AccessorName(f) != u.AccessorName(g)
  {
    var a, b := t.AccessorName(f), u.AccessorName(g);
    if t != NoAccessor && u != NoAccessor {
      assert a[0] == t.Prefix()[0] && b[0] == u.Prefix()[0];
    }
  }

  /** The accessor name determines the field name up to the case of its first letter. */
  lemma AccessorNameDeterminesField(t: AccessorType, f: FieldInfo, g: FieldInfo)
    requires t != NoAccessor
    requires t.AccessorName(f) == t.AccessorName(g)
    ensures ToUpper(f.name[0]) == ToUpper(g.name[0]) && f.name[1..] == g.name[1..]
  {
  }

  /** The enum ClassAnalyzer.AccessorAvailability: NONE, CURRENT_CLASS, ANCESTOR_CLASS. */
  datatype AccessorAvailability = Absent | CurrentClass | AncestorClass
  {
    /** Enum.ordinal(): the position in declaration order. */
    function Ordinal(): (n: nat)
      ensures n < 3
      ensures n == 0 <==> this == Absent
      ensures n == 1 <==> this == CurrentClass
      ensures n == 2 <==> this == AncestorClass
    {
      match this
      case Absent => 0
      case CurrentClass => 1
      case AncestorClass => 2
    }
  }

  /** The constant with a given ordinal, as a reader of the output needs it. */
  function AvailabilityOfOrdinal(n: nat): (a: Option<AccessorAvailability>)
    ensures a.Some? <==> n < 3
  {
    if n == 0 then Some(Absent)
    else if n == 1 then Some(CurrentClass)
    else if n == 2 then Some(AncestorClass)
    else None
  }

  /** Ordinals identify the constants. */
  lemma OrdinalRoundTrip(a: AccessorAvailability)
    ensures AvailabilityOfOrdinal(a.Ordinal()) == Some(a)
  {
  }
}
