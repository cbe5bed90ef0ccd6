/** ClassAnalyzer.AccessibleField: one line of the analyzer's output. */
module AccessibleFields {
  import opened Wrappers
  import opened Reflection
  import opened Accessors

  /** A collected field: its name, its type and where its accessor was found. */
  datatype AccessibleField = AccessibleField(
    name: Identifier,
    fieldType: TypeRef,
    accessorAvailability: AccessorAvailability)
  {
    /** toString: the type's simple name, a space, the field name, a space,
        then the availability's ordinal in decimal. */
    function ToString(): (s: string)
      ensures |s| == |fieldType.simpleName| + |name| + 3
      ensures s[|s| - 1] == OrdinalDigit(accessorAvailability)
    {
      fieldType.simpleName + [' '] + name + [' '] + [OrdinalDigit(accessorAvailability)]
    }
  }

  /** StringBuilder.append(int) of an ordinal below 10 is one decimal digit. */
  function OrdinalDigit(a: AccessorAvailability): (d: char)
    ensures '0' <= d <= '2'
  {
    ('0' as int + a.Ordinal()) as char
  }

  /** The pieces of `s` between occurrences of `sep`, as String.split with a
      limit of -1 returns them (empty pieces kept). */
  function Split(s: string, sep: char): (parts: seq<string>)
    ensures |parts| > 0
    decreases |s|
  {
    if |s| == 0 then [""]
    else
      var rest := Split(s[1..], sep);
      if s[0] == sep then [""] + rest
      else [[s[0]] + rest[0]] + rest[1..]
  }

  /** A line without separators is one piece. */
  lemma {:induction false} SplitWithoutSeparator(s: string, sep: char)
    requires sep !in s
    ensures Split(s, sep) == [s]
    decreases |s|
  {
    if |s| > 0 {
      assert sep !in s[1..];
      SplitWithoutSeparator(s[1..], sep);
      assert [s[0]] + s[1..] == s;
    }
  }

  /** Splitting after a separator-free first piece. */
  lemma {:induction false} SplitAfterPiece(a: string, b: string, sep: char)
    requires sep !in a
    ensures Split(a + [sep] + b, sep) == [a] + Split(b, sep)
    decreases |a|
  {
    var s := a + [sep] + b;
    if |a| == 0 {
      assert s[1..] == b;
    } else {
      assert s[1..] == a[1..] + [sep] + b;
      assert sep !in a[1..];
      SplitAfterPiece(a[1..], b, sep);
      assert [a[0]] + a[1..] == a;
    }
  }

  /** How a reader of the analyzer's output takes one line apart: three
      space-separated pieces, the last one an ordinal digit. */
  function ParseLine(line: string): Option<(string, string, AccessorAvailability)>
  {
    var parts := Split(line, ' ');
    if |parts| == 3 && |parts[2]| == 1 && '0' <= parts[2][0] <= '9' then
      match AvailabilityOfOrdinal(parts[2][0] as int - '0' as int)
      case Some(a) => Some((parts[0], parts[1], a))
      case None => None
    else None
  }

  /** Round trip: a line written by toString reads back as the simple type
      name, the field name and the availability, provided neither name holds
      a space (Java identifiers and simple names never do). */
  lemma ToStringRoundTrip(f: AccessibleField)
    requires ' ' !in f.fieldType.simpleName && ' ' !in f.name
    ensures ParseLine(f.ToString()) == Some((f.fieldType.simpleName, f.name, f.accessorAvailability))
  {
    var d := [OrdinalDigit(f.accessorAvailability)];
    assert f.ToString() == f.fieldType.simpleName + [' '] + (f.name + [' '] + d);
    SplitAfterPiece(f.fieldType.simpleName, f.name + [' '] + d, ' ');
    SplitAfterPiece(f.name, d, ' ');
    SplitWithoutSeparator(d, ' ');
    OrdinalRoundTrip(f.accessorAvailability);
  }
}
