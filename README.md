# ClassAnalyzer — a Dafny model

This project models `ClassAnalyzer`, the small Java program the editor
extension runs on a compiled class to list the fields an accessor (getter,
setter or wither) could be generated for. Given a target class and an
accessor prefix it walks the class and its superclasses up to
`java.lang.Object`, keeps the instance fields the target class can see (and
only the non-final ones for setters and withers), and reports for each one
whether the accessor already exists in the target class, is inherited as a
public method, or is absent. Each result is printed as
`<SimpleType> <name> <ordinal>`.

The reflection the program performs is replaced by data:

- a loaded class is a `Reflection.ClassInfo`: its name, its package name,
  its declared fields in the order `getDeclaredFields` returns them
  (`FieldInfo`: name, type, modifier int), the method signatures `getDeclaredMethod` finds and the
  signatures `getMethod` finds;
- the target class and its ancestors are a sequence `chain` with
  `chain[0]` the target and `chain[k + 1]` the superclass of `chain[k]`;
  after the last element `getSuperclass()` returns null;
- modifier ints use the field access flags of section 4.5 of the Java
  Virtual Machine Specification (ACC_PUBLIC 0x0001, ACC_PRIVATE 0x0002,
  ACC_PROTECTED 0x0004, ACC_STATIC 0x0008, ACC_FINAL 0x0010). They are
  Java ints, tested bit by bit as `java.lang.reflect.Modifier` does.

Modules, leaves first: `Wrappers` (Option, Result), `AsciiText`
(`Character.toUpperCase` and `String.equalsIgnoreCase` on ASCII),
`Modifiers`, `Reflection`, `Accessors` (the enums `AccessorType` and
`AccessorAvailability`), `AccessibleFields` (the class `AccessibleField`
and its `toString`), and `ClassAnalyzer` (the static methods).

`getAccessibleFields` is imperative in the source: a `while` loop over the
classes and a for-each loop over each class's fields that appends to a
list. It is modelled by two methods: `GetAccessibleFields` runs the outer
loop and `CollectDeclaredFields` runs the inner for-each loop for one class.
Both are proved equal to a specification built from `Selected`, the kept
field positions in walk order, and `Describe`, which turns those positions
into `AccessibleField` values. The lemmas about `Selected` state the
filtering and ordering properties. `AccessorType.of` loops over `values()`
with an early return. It is the method `Of`, proved equal to `Parse`, which
says what the lookup means.

The enum constants are renamed to Dafny style: `AccessorType` NONE, GETTER,
SETTER, WITHER are `NoAccessor`, `Getter`, `Setter`, `Wither`.
`AccessorAvailability` NONE, CURRENT_CLASS, ANCESTOR_CLASS are `Absent`,
`CurrentClass`, `AncestorClass`.

## Model

| member | source | states |
|---|---|---|
| `ClassAnalyzer.IsAccessibleAndNotStatic` | src/java/ClassAnalyzer.java:39-67 | the rule itself, in the source's order of tests; its contract: an accessible field is never static, a non-static field of the target class is always accessible, an inherited private field never is |
| `ClassAnalyzer.StaticNeverAccessible` | src/java/ClassAnalyzer.java:44-46 | a static field is never accessible, whatever the other arguments |
| `ClassAnalyzer.CurrentClassAlwaysAccessible` | src/java/ClassAnalyzer.java:48-50 | a non-static field of the target class is always accessible, private ones included |
| `ClassAnalyzer.InheritedAccessibility` | src/java/ClassAnalyzer.java:52-65 | for an inherited instance field: private gives false, public or protected gives true, package-private gives true exactly when the two packages are equal |
| `ClassAnalyzer.InheritedAccessibilityIsJlsAccess` | src/java/ClassAnalyzer.java:17-30 | for modifiers with at most one access flag, the rule for inherited fields is the access rule of section 6.6.1 of the Java Language Specification (public, protected: visible; package access: same package only; private: hidden), and static fields are excluded |
| `ClassAnalyzer.GetAccessorAvailability` | src/java/ClassAnalyzer.java:136-208 | the decision itself; its contract: NONE for the NONE type, CURRENT_CLASS only when the target class declares the accessor and always when it does, ANCESTOR_CLASS only when getMethod finds it |
| `ClassAnalyzer.AvailabilityCases` | src/java/ClassAnalyzer.java:141-202 | the availability is CURRENT_CLASS exactly when the type is not NONE and the target class declares the accessor; ANCESTOR_CLASS exactly when it does not but getMethod finds it; NONE exactly for the NONE type or when both lookups fail |
| `ClassAnalyzer.AccessorSignatureShape` | src/java/ClassAnalyzer.java:144-161 | the lookup uses the accessor name prefix + capitalised first letter + rest, with no parameter for a getter and the field's type as the one parameter for a setter or wither |
| `ClassAnalyzer.ObjectIndex` | src/java/ClassAnalyzer.java:89-90 | the walk stops at the first class equal to java.lang.Object; when there is none, getSuperclass runs out first |
| `ClassAnalyzer.FirstObjectIsObjectIndex` | src/java/ClassAnalyzer.java:90 | a class equal to Object with no Object before it is where the walk stops |
| `ClassAnalyzer.CollectDeclaredFields` | src/java/ClassAnalyzer.java:93-116 | the for-each loop appends, in the order getDeclaredFields returns the fields, exactly the entries of the fields of one class that pass both filters, after what was collected before |
| `ClassAnalyzer.GetAccessibleFields` | src/java/ClassAnalyzer.java:80-125 | the result is the entries of the kept fields of the classes before the first Object, class by class in chain order; falling off the chain before Object is the null pointer exception of `currentClass.equals` |
| `ClassAnalyzer.SelectedSound` | src/java/ClassAnalyzer.java:101-110 | every collected field passes the accessibility check, with inCurrentClass true only for the target class, and is not final when the accessor requires a modifiable field |
| `ClassAnalyzer.ClassPositionsSound` | src/java/ClassAnalyzer.java:101-110 | within one class, every kept position passes both filters |
| `ClassAnalyzer.SelectedComplete` | src/java/ClassAnalyzer.java:95-114 | every declared field of a walked class that passes both filters is collected |
| `ClassAnalyzer.ClassPositionsComplete` | src/java/ClassAnalyzer.java:95-114 | within one class, every field that passes both filters is kept |
| `ClassAnalyzer.SelectedOrdered` | src/java/ClassAnalyzer.java:89-121 | results are strictly ordered: target-class fields first, then each superclass in chain order, and within a class the order getDeclaredFields returns |
| `ClassAnalyzer.ClassPositionsOrdered` | src/java/ClassAnalyzer.java:95-116 | the fields kept from one class keep the order getDeclaredFields returns them in |
| `ClassAnalyzer.SelectedLengthBound` | src/java/ClassAnalyzer.java:83-123 | the result is never longer than the number of fields declared along the walked chain |
| `ClassAnalyzer.SelectedFilters` | src/java/ClassAnalyzer.java:102-110 | no collected field is static; none is final when the accessor requires a modifiable field; a private one can only come from the target class |
| `ClassAnalyzer.SelectedBelowObject` | src/java/ClassAnalyzer.java:90-119 | no collected field comes from Object or from a class after it in the chain |
| `Accessors.AccessorType.Prefix` | src/java/ClassAnalyzer.java:239-252 | the constructor's prefix: "" exactly for NONE, otherwise at most four lower-case letters ("get", "set", "with") |
| `Accessors.AccessorType.RequiresModifiableField` | src/java/ClassAnalyzer.java:239-266 | the constructor's flag: never true for NONE or GETTER |
| `Accessors.AccessorType.AccessorName` | src/java/ClassAnalyzer.java:277-292 | "" for NONE; otherwise the prefix, the upper-cased first letter and the rest of the field name, of length prefix length + name length |
| `Accessors.AccessorType.AccessorParam` | src/java/ClassAnalyzer.java:304-312 | the parameter is present exactly when requiresModifiableField is true, and it is the field's type |
| `Accessors.ParamPresentIffModifiable` | src/java/ClassAnalyzer.java:239-248 | the parameter is present, and requiresModifiableField is true, exactly for SETTER and WITHER |
| `Accessors.AccessorNamePrefixParses` | src/java/ClassAnalyzer.java:280-290 | the accessor name starts with a prefix that `of` maps back to the accessor type |
| `Accessors.AccessorNamesDistinct` | src/java/ClassAnalyzer.java:239-290 | two different accessor types never give the same accessor name |
| `Accessors.AccessorNameDeterminesField` | src/java/ClassAnalyzer.java:283-290 | the accessor name fixes the field name up to the case of its first letter |
| `Accessors.AccessorType.Ordinal` | src/java/ClassAnalyzer.java:239-248 | every constant has an ordinal below four; with `Values`, each constant sits at its own ordinal in values() |
| `Accessors.Values` | src/java/ClassAnalyzer.java:330 | values() lists each constant once, at its ordinal |
| `Accessors.Of` | src/java/ClassAnalyzer.java:324-336 | `of` returns what Parse says: NONE for null, the constant whose prefix equals the argument ignoring case, NONE when none does |
| `Accessors.Parse` | src/java/ClassAnalyzer.java:324-336 | what `of` means: null gives NONE, and any other result is a constant whose prefix equals the argument ignoring case |
| `Accessors.PrefixesDistinctIgnoringCase` | src/java/ClassAnalyzer.java:239-248 | no two prefixes are equal ignoring case |
| `Accessors.MatchIsUnique` | src/java/ClassAnalyzer.java:330-332 | at most one constant matches a given string, so the first match is the only one |
| `Accessors.ParseMatch` | src/java/ClassAnalyzer.java:331-332 | a string equal to a constant's prefix ignoring case parses to that constant |
| `Accessors.ParsePrefix` | src/java/ClassAnalyzer.java:239-248 | round trip: parsing the prefix of an accessor type gives that type |
| `Accessors.ParseTransfer` | src/java/ClassAnalyzer.java:331 | a string equal ignoring case to one that parses to an accessor parses to the same accessor |
| `Accessors.ParseIgnoresCase` | src/java/ClassAnalyzer.java:331 | strings equal ignoring case parse to the same accessor type |
| `Accessors.ParseFallback` | src/java/ClassAnalyzer.java:327-334 | null, and any string matching no prefix, give NONE |
| `Accessors.ParseExamples` | src/java/ClassAnalyzer.java:327-334 | "GET" gives GETTER, "With" gives WITHER, "" and "getter" and null give NONE |
| `Accessors.AccessorAvailability.Ordinal` | src/java/ClassAnalyzer.java:354-366 | the ordinal is 0 exactly for NONE, 1 exactly for CURRENT_CLASS and 2 exactly for ANCESTOR_CLASS, as in the declaration order |
| `Accessors.OrdinalRoundTrip` | src/java/ClassAnalyzer.java:416 | the printed ordinal identifies the availability |
| `AccessibleFields.AccessibleField.ToString` | src/java/ClassAnalyzer.java:410-419 | the line is as long as the simple type name and the field name plus two spaces and one digit, and ends with the availability's ordinal digit |
| `AccessibleFields.OrdinalDigit` | src/java/ClassAnalyzer.java:416 | the ordinal prints as one digit from '0' to '2' |
| `AccessibleFields.ToStringRoundTrip` | src/java/ClassAnalyzer.java:413-417 | splitting the line at spaces gives back the simple type name, the field name and the availability |
| `AsciiText.ToUpper` | src/java/ClassAnalyzer.java:284 | in the ASCII case mapping of this model: the capitalised character is never an ASCII lower-case letter, and lowering an upper-cased ASCII letter gives it back |
| `AsciiText.CharEqualsIgnoreCaseIffSameUpper` | src/java/ClassAnalyzer.java:331 | with the ASCII case mapping of this model (not with Java's full Unicode mapping), two characters match ignoring case exactly when their upper cases are equal |
| `AsciiText.CharEqualsIgnoreCase` | src/java/ClassAnalyzer.java:331 | one character step of equalsIgnoreCase on the ASCII case mapping: equal characters match, and a match always has equal lower cases of the upper cases |
| `AsciiText.EqualsIgnoreCase` | src/java/ClassAnalyzer.java:331 | equalsIgnoreCase on the ASCII case mapping: matching strings have equal lengths, and equal strings match |
| `AsciiText.EqualsIgnoreCaseTransitive` | src/java/ClassAnalyzer.java:331 | equality ignoring case is transitive |
| `AsciiText.EqualsIgnoreCaseSymmetric` | src/java/ClassAnalyzer.java:331 | equality ignoring case is symmetric |

## Left out

- `main` (argument handling, `Class.forName`, printing to standard output and standard error, the catch-all handler) is process I/O and dynamic class loading. The model ends at the list `getAccessibleFields` returns and at the line `toString` produces.
- The reflection calls are JDK code. Their results are the fields of `ClassInfo`. The JDK's method resolution, which fills the set of public methods, is not modelled.
- The order of fields: the model keeps the order in which `getDeclaredFields` returns a class's fields, as the source does. The JDK does not promise that this is declaration order, so the ordering lemmas speak of that array's order, not of the order in the source file.
- `currentClass == targetClass` is modelled as "the class is the first in the chain". A Java class hierarchy has no cycles, so the target class appears only there.
- Packages are compared by name. A null package (primitive or array types) and two packages of the same name from different class loaders are not modelled.
- `AsciiText.ToUpper`: models `Character.toUpperCase` for ASCII letters only; other Unicode letters are left unchanged, because full Unicode case mapping has no place in this model.
- `AsciiText.EqualsIgnoreCase`: models `String.equalsIgnoreCase` with the same ASCII restriction. Java also matches some non-ASCII letters, so `of` in Java gives SETTER for "ſet" and WITHER for "wıth" and "wİth", while `Parse` gives NONE for them. Java's third comparison step (lowering the upper cases) can match characters whose upper cases differ, such as 'İ' and 'i'; in this model the three steps reduce to comparing upper cases.
- `ClassAnalyzer.GetAccessibleFields`: the inner for-each loop is the separate method `CollectDeclaredFields`, which takes the list collected so far and returns it extended. The source appends to one list inside one method.
- `NoSuchMethodException` control flow is the boolean outcome of the two lookups `DeclaresMethod` and `HasPublicMethod`.
- The initial capacity passed to `StringBuilder` in `getAccessorName` has no effect on the result and is not modelled.
- `AccessibleFields.ParseLine`, `AccessibleFields.Split` and `Accessors.AvailabilityOfOrdinal` model a reader of the output lines. That reader is not part of this model's source; they serve only to state the round trip of `toString`.
