/** The static methods of ClassAnalyzer: which fields of a class and its
    ancestors are accessible, and where their accessor methods live. */
module ClassAnalyzer {
  import opened Wrappers
  import opened Modifiers
  import opened Reflection
  import opened Accessors
  import opened AccessibleFields
  import AsciiText

  /* ---------------- isAccessibleAndNotStatic ---------------- */

  /** Whether a field with modifiers `mods` is an instance field visible from
      the target class: static fields never are, fields of the target class
      always are, inherited ones by their access flags and packages. */
  predicate IsAccessibleAndNotStatic(mods: ModifierBits, inCurrentClass: bool, classPackage: string, parentPackage: string)
    ensures IsAccessibleAndNotStatic(mods, inCurrentClass, classPackage, parentPackage) ==> !IsStatic(mods)
    ensures !IsStatic(mods) && inCurrentClass ==> IsAccessibleAndNotStatic(mods, inCurrentClass, classPackage, parentPackage)
    ensures !inCurrentClass && IsPrivate(mods) ==> !IsAccessibleAndNotStatic(mods, inCurrentClass, classPackage, parentPackage)
  {
    if IsStatic(mods) then false
    else if inCurrentClass then true
    else if IsPrivate(mods) then false
    else if IsPublic(mods) || IsProtected(mods) then true
    else classPackage == parentPackage
  }

  /** Static fields are never reported, whatever the other arguments. */
  lemma StaticNeverAccessible(mods: ModifierBits, inCurrentClass: bool, classPackage: string, parentPackage: string)
    requires IsStatic(mods)
    ensures !IsAccessibleAndNotStatic(mods, inCurrentClass, classPackage, parentPackage)
  {
  }

  /** Instance fields of the target class are always reported, private ones included. */
  lemma CurrentClassAlwaysAccessible(mods: ModifierBits, classPackage: string, parentPackage: string)
    requires !IsStatic(mods)
    ensures IsAccessibleAndNotStatic(mods, true, classPackage, parentPackage)
  {
  }

  /** Inherited instance fields: private ones are hidden, public and
      protected ones visible, package-private ones visible exactly when both
      classes are in the same package. */
  lemma InheritedAccessibility(mods: ModifierBits, classPackage: string, parentPackage: string)
    requires !IsStatic(mods)
    ensures IsPrivate(mods) ==> !IsAccessibleAndNotStatic(mods, false, classPackage, parentPackage)
    ensures !IsPrivate(mods) && (IsPublic(mods) || IsProtected(mods)) ==>
      IsAccessibleAndNotStatic(mods, false, classPackage, parentPackage)
    ensures !IsPrivate(mods) && !IsPublic(mods) && !IsProtected(mods) ==>
      (IsAccessibleAndNotStatic(mods, false, classPackage, parentPackage) <==> classPackage == parentPackage)
  {
  }

  /** For well-formed modifiers the rule for inherited fields is the access
      rule of section 6.6.1 of the Java Language Specification. */
  lemma InheritedAccessibilityIsJlsAccess(mods: ModifierBits, classPackage: string, parentPackage: string)
    requires WellFormedAccess(mods)
    ensures IsAccessibleAndNotStatic(mods, false, classPackage, parentPackage)
      <==> !IsStatic(mods) && InheritedMemberAccessible(AccessLevelOf(mods), classPackage == parentPackage)
  {
  }

  /* ---------------- getAccessorAvailability ---------------- */

  /** The signature looked up for a field's accessor: the accessor name and,
      for setters and withers, the field's type as the one parameter. */
  function AccessorSignature(accessorType: AccessorType, field: FieldInfo): MethodSig
  {
    MethodSig(accessorType.AccessorName(field), accessorType.AccessorParam(field))
  }

  /** getAccessorAvailability: NONE for the NONE accessor type; CURRENT_CLASS
      when the target class declares the accessor (any visibility);
      ANCESTOR_CLASS when getMethod finds it as a public method; NONE otherwise. */
  function GetAccessorAvailability(targetClass: ClassInfo, field: FieldInfo, accessorType: AccessorType): (r: AccessorAvailability)
    ensures accessorType == NoAccessor ==> r == Absent
    ensures r == CurrentClass ==> DeclaresMethod(targetClass, AccessorSignature(accessorType, field))
    ensures r == AncestorClass ==> HasPublicMethod(targetClass, AccessorSignature(accessorType, field))
    ensures accessorType != NoAccessor && DeclaresMethod(targetClass, AccessorSignature(accessorType, field)) ==> r == CurrentClass
  {
    if accessorType == NoAccessor then Absent
    else
      var sig := AccessorSignature(accessorType, field);
      if DeclaresMethod(targetClass, sig) then CurrentClass
      else if HasPublicMethod(targetClass, sig) then AncestorClass
      else Absent
  }

  /** The three outcomes, each stated with the lookups that lead to it. */
  lemma AvailabilityCases(targetClass: ClassInfo, field: FieldInfo, accessorType: AccessorType)
    ensures GetAccessorAvailability(targetClass, field, accessorType) == CurrentClass <==>
      accessorType != NoAccessor && DeclaresMethod(targetClass, AccessorSignature(accessorType, field))
    ensures GetAccessorAvailability(targetClass, field, accessorType) == AncestorClass <==>
      accessorType != NoAccessor && !DeclaresMethod(targetClass, AccessorSignature(accessorType, field))
      && HasPublicMethod(targetClass, AccessorSignature(accessorType, field))
    ensures GetAccessorAvailability(targetClass, field, accessorType) == Absent <==>
      accessorType == NoAccessor || (!DeclaresMethod(targetClass, AccessorSignature(accessorType, field))
      && !HasPublicMethod(targetClass, AccessorSignature(accessorType, field)))
  {
  }

  /** A getter is looked up without a parameter, a setter or wither with the
      field's type, and always under the name prefix + capitalised field name. */
  lemma AccessorSignatureShape(accessorType: AccessorType, field: FieldInfo)
    requires accessorType != NoAccessor
    ensures AccessorSignature(accessorType, field).param ==
      (if accessorType == Getter then None else Some(field.fieldType))
    ensures AccessorSignature(accessorType, field).name ==
      accessorType.Prefix() + [AsciiText.ToUpper(field.name[0])] + field.name[1..]
  {
  }

  /* ---------------- getAccessibleFields ---------------- */

  /** Where the walk up the hierarchy stops: the first class equal to
      java.lang.Object, or None when getSuperclass runs out (returns null)
      before reaching it. */
  function ObjectIndex(chain: seq<ClassInfo>): (r: Option<nat>)
    ensures r.Some? ==>
      (r.value < |chain| && IsObject(chain[r.value]) && forall k :: 0 <= k < r.value ==> !IsObject(chain[k]))
    ensures r.None? ==> forall k :: 0 <= k < |chain| ==> !IsObject(chain[k])
  {
    if |chain| == 0 then None
    else if IsObject(chain[0]) then Some(0)
    else match ObjectIndex(chain[1..])
      case Some(k) => Some(k + 1)
      case None => None
  }

  lemma FirstObjectIsObjectIndex(chain: seq<ClassInfo>, i: nat)
    requires i < |chain| && IsObject(chain[i])
    requires forall k :: 0 <= k < i ==> !IsObject(chain[k])
    ensures ObjectIndex(chain) == Some(i)
  {
  }

  /** The place of a declared field: the class's index in the chain (0 is
      the target class) and the field's index among that class's fields. */
  datatype Position = Position(cls: nat, index: nat)

  predicate ValidPosition(chain: seq<ClassInfo>, p: Position)
  {
    p.cls < |chain| && p.index < |chain[p.cls].fields|
  }

  /** The two filters of the inner loop: accessible and not static (with
      `inCurrentClass` true only for the target class), and not final when
      the accessor needs a modifiable field. */
  predicate Keep(chain: seq<ClassInfo>, c: nat, j: nat, accessorType: AccessorType)
    requires c < |chain| && j < |chain[c].fields|
  {
    var mods := chain[c].fields[j].modifiers;
    IsAccessibleAndNotStatic(mods, c == 0, chain[0].package, chain[c].package)
    && !(accessorType.RequiresModifiableField() && IsFinal(mods))
  }

  /** The kept positions among the first `j` fields of class `c`, in the order getDeclaredFields returns them. */
  function ClassPositions(chain: seq<ClassInfo>, c: nat, j: nat, accessorType: AccessorType): (ps: seq<Position>)
    requires c < |chain| && j <= |chain[c].fields|
    ensures forall p :: p in ps ==> p.cls == c && p.index < j
    ensures |ps| <= j
  {
    if j == 0 then []
    else
      ClassPositions(chain, c, j - 1, accessorType)
      + (if Keep(chain, c, j - 1, accessorType) then [Position(c, j - 1)] else [])
  }

  /** The kept positions of the first `n` classes of the chain, class by class. */
  function Selected(chain: seq<ClassInfo>, n: nat, accessorType: AccessorType): (ps: seq<Position>)
    requires n <= |chain|
    ensures forall p :: p in ps ==> ValidPosition(chain, p) && p.cls < n
  {
    if n == 0 then []
    else Selected(chain, n - 1, accessorType) + ClassPositions(chain, n - 1, |chain[n - 1].fields|, accessorType)
  }

  /** The AccessibleField built for a kept position; the accessor is always
      looked up from the target class. */
  function Entry(chain: seq<ClassInfo>, p: Position, accessorType: AccessorType): AccessibleField
    requires ValidPosition(chain, p)
  {
    var field := chain[p.cls].fields[p.index];
    AccessibleField(field.name, field.fieldType, GetAccessorAvailability(chain[0], field, accessorType))
  }

  /** The AccessibleFields for a sequence of positions, in the same order. */
  function Describe(chain: seq<ClassInfo>, ps: seq<Position>, accessorType: AccessorType): (fs: seq<AccessibleField>)
    requires forall p :: p in ps ==> ValidPosition(chain, p)
    ensures |fs| == |ps|
  {
    seq(|ps|, k requires 0 <= k < |ps| => Entry(chain, ps[k], accessorType))
  }

  /** Describing a concatenation describes the parts one after the other. */
  lemma DescribeAppend(chain: seq<ClassInfo>, ps: seq<Position>, qs: seq<Position>, accessorType: AccessorType)
    requires forall p :: p in ps ==> ValidPosition(chain, p)
    requires forall q :: q in qs ==> ValidPosition(chain, q)
    ensures Describe(chain, ps + qs, accessorType) == Describe(chain, ps, accessorType) + Describe(chain, qs, accessorType)
  {
  }

  /** A field that fails a filter adds no position. */
  lemma ClassPositionsSkip(chain: seq<ClassInfo>, c: nat, j: nat, accessorType: AccessorType)
    requires c < |chain| && j < |chain[c].fields|
    requires !Keep(chain, c, j, accessorType)
    ensures ClassPositions(chain, c, j + 1, accessorType) == ClassPositions(chain, c, j, accessorType)
  {
  }

  /** A field that passes both filters adds its entry at the end. */
  lemma DescribeKept(chain: seq<ClassInfo>, c: nat, j: nat, accessorType: AccessorType)
    requires c < |chain| && j < |chain[c].fields|
    requires Keep(chain, c, j, accessorType)
    ensures Describe(chain, ClassPositions(chain, c, j + 1, accessorType), accessorType)
      == Describe(chain, ClassPositions(chain, c, j, accessorType), accessorType) + [Entry(chain, Position(c, j), accessorType)]
  {
    DescribeAppend(chain, ClassPositions(chain, c, j, accessorType), [Position(c, j)], accessorType);
  }

  /** The for-each loop of getAccessibleFields over the fields declared by
      class `i` of the chain: skips the fields that are not accessible or
      static, skips the final ones when the accessor modifies the field,
      and appends an AccessibleField for every other one, in getDeclaredFields order. */
  method CollectDeclaredFields(chain: seq<ClassInfo>, i: nat, accessorType: AccessorType, collected: seq<AccessibleField>)
    returns (result: seq<AccessibleField>)
    requires i < |chain|
    ensures result == collected + Describe(chain, ClassPositions(chain, i, |chain[i].fields|, accessorType), accessorType)
  {
    result := collected;
    var fields := chain[i].fields;
    for j := 0 to |fields|
      invariant result == collected + Describe(chain, ClassPositions(chain, i, j, accessorType), accessorType)
    {
      ghost var done := ClassPositions(chain, i, j, accessorType);
      var mods := fields[j].modifiers;
      if !IsAccessibleAndNotStatic(mods, i == 0, chain[0].package, chain[i].package) {
        ClassPositionsSkip(chain, i, j, accessorType);
        continue;
      }
      if accessorType.RequiresModifiableField() && IsFinal(mods) {
        ClassPositionsSkip(chain, i, j, accessorType);
        continue;
      }
      var availability := GetAccessorAvailability(chain[0], fields[j], accessorType);
      result := result + [AccessibleField(fields[j].name, fields[j].fieldType, availability)];
      DescribeKept(chain, i, j, accessorType);
      assert result == collected + (Describe(chain, done, accessorType) + [Entry(chain, Position(i, j), accessorType)]);
    }
  }

  /** One turn of the outer loop: the next class's kept fields follow those collected so far. */
  lemma DescribeNextClass(chain: seq<ClassInfo>, i: nat, accessorType: AccessorType)
    requires i < |chain|
    ensures Describe(chain, Selected(chain, i + 1, accessorType), accessorType)
      == Describe(chain, Selected(chain, i, accessorType), accessorType)
       + Describe(chain, ClassPositions(chain, i, |chain[i].fields|, accessorType), accessorType)
  {
    DescribeAppend(chain, Selected(chain, i, accessorType), ClassPositions(chain, i, |chain[i].fields|, accessorType), accessorType);
  }

  /** The exception getAccessibleFields lets escape. */
  datatype AnalysisError = NullSuperclass

  /** getAccessibleFields over the superclass chain of the target class
      (`chain[0]` is the target class, `chain[k + 1]` the superclass of
      `chain[k]`, and the superclass of the last one is null). Walks the
      classes until java.lang.Object, keeping in getDeclaredFields order the
      accessible instance fields (and only non-final ones for setters and
      withers). Falling off the chain before Object is the
      NullPointerException of `currentClass.equals`. */
  method GetAccessibleFields(chain: seq<ClassInfo>, accessorType: AccessorType)
    returns (r: Result<seq<AccessibleField>, AnalysisError>)
    requires |chain| > 0
    ensures ObjectIndex(chain).None? ==> r == Err(NullSuperclass)
    ensures ObjectIndex(chain).Some? ==>
      r == Ok(Describe(chain, Selected(chain, ObjectIndex(chain).value, accessorType), accessorType))
  {
    var accessibleFields: seq<AccessibleField> := [];
    var i := 0;
    while i < |chain| && !IsObject(chain[i])
      invariant 0 <= i <= |chain|
      invariant forall k :: 0 <= k < i ==> !IsObject(chain[k])
      invariant accessibleFields == Describe(chain, Selected(chain, i, accessorType), accessorType)
    {
      accessibleFields := CollectDeclaredFields(chain, i, accessorType, accessibleFields);
      DescribeNextClass(chain, i, accessorType);
      i := i + 1;
    }
    if i == |chain| {
      return Err(NullSuperclass);
    }
    FirstObjectIsObjectIndex(chain, i);
    return Ok(accessibleFields);
  }

  /* ---------------- properties of the collected fields ---------------- */

  /** Position `p` comes strictly before `q`: an earlier class of the chain,
      or the same class and an earlier declaration. */
  predicate Before(p: Position, q: Position)
  {
    p.cls < q.cls || (p.cls == q.cls && p.index < q.index)
  }

  predicate StrictlyOrdered(ps: seq<Position>)
  {
    forall a, b :: 0 <= a < b < |ps| ==> Before(ps[a], ps[b])
  }

  lemma {:induction false} ClassPositionsOrdered(chain: seq<ClassInfo>, c: nat, j: nat, accessorType: AccessorType)
    requires c < |chain| && j <= |chain[c].fields|
    ensures StrictlyOrdered(ClassPositions(chain, c, j, accessorType))
  {
    if j > 0 {
      ClassPositionsOrdered(chain, c, j - 1, accessorType);
    }
  }

  /** The target class's fields come first, then each superclass's in chain
      order, and within one class the fields keep their getDeclaredFields order. */
  lemma {:induction false} SelectedOrdered(chain: seq<ClassInfo>, n: nat, accessorType: AccessorType)
    requires n <= |chain|
    ensures StrictlyOrdered(Selected(chain, n, accessorType))
  {
    if n > 0 {
      SelectedOrdered(chain, n - 1, accessorType);
      ClassPositionsOrdered(chain, n - 1, |chain[n - 1].fields|, accessorType);
      var front := Selected(chain, n - 1, accessorType);
      var back := ClassPositions(chain, n - 1, |chain[n - 1].fields|, accessorType);
      var ps := front + back;
      forall a, b | 0 <= a < b < |ps| ensures Before(ps[a], ps[b]) {
        if b < |front| {
        } else if a >= |front| {
          assert ps[a] == back[a - |front|] && ps[b] == back[b - |front|];
        } else {
          assert ps[a] in front && ps[b] in back;
        }
      }
    }
  }

  lemma {:induction false} ClassPositionsSound(chain: seq<ClassInfo>, c: nat, j: nat, accessorType: AccessorType, p: Position)
    requires c < |chain| && j <= |chain[c].fields|
    requires p in ClassPositions(chain, c, j, accessorType)
    ensures Keep(chain, c, p.index, accessorType)
  {
    if p !in ClassPositions(chain, c, j - 1, accessorType) {
      assert p == Position(c, j - 1);
    } else {
      ClassPositionsSound(chain, c, j - 1, accessorType, p);
    }
  }

  /** Every collected field passes both filters: it is an accessible
      instance field, judged with `inCurrentClass` true exactly for the
      target class, and it is not final when the accessor modifies it. */
  lemma {:induction false} SelectedSound(chain: seq<ClassInfo>, n: nat, accessorType: AccessorType, p: Position)
    requires n <= |chain| && p in Selected(chain, n, accessorType)
    ensures Keep(chain, p.cls, p.index, accessorType)
  {
    var front := Selected(chain, n - 1, accessorType);
    var back := ClassPositions(chain, n - 1, |chain[n - 1].fields|, accessorType);
    assert Selected(chain, n, accessorType) == front + back;
    if p in front {
      SelectedSound(chain, n - 1, accessorType, p);
    } else {
      assert p in back;
      ClassPositionsSound(chain, n - 1, |chain[n - 1].fields|, accessorType, p);
    }
  }

  lemma {:induction false} ClassPositionsComplete(chain: seq<ClassInfo>, c: nat, j: nat, accessorType: AccessorType, k: nat)
    requires c < |chain| && j <= |chain[c].fields| && k < j
    requires Keep(chain, c, k, accessorType)
    ensures Position(c, k) in ClassPositions(chain, c, j, accessorType)
  {
    if k < j - 1 {
      ClassPositionsComplete(chain, c, j - 1, accessorType, k);
    }
  }

  /** Every declared field of the walked classes that passes both filters is collected. */
  lemma {:induction false} SelectedComplete(chain: seq<ClassInfo>, n: nat, accessorType: AccessorType, p: Position)
    requires n <= |chain| && p.cls < n && ValidPosition(chain, p)
    requires Keep(chain, p.cls, p.index, accessorType)
    ensures p in Selected(chain, n, accessorType)
  {
    if p.cls == n - 1 {
      ClassPositionsComplete(chain, p.cls, |chain[p.cls].fields|, accessorType, p.index);
    } else {
      SelectedComplete(chain, n - 1, accessorType, p);
    }
  }

  /** The number of fields declared by the first `n` classes of the chain. */
  function DeclaredFieldCount(chain: seq<ClassInfo>, n: nat): nat
    requires n <= |chain|
  {
    if n == 0 then 0 else DeclaredFieldCount(chain, n - 1) + |chain[n - 1].fields|
  }

  /** No more fields are collected than are declared along the walked chain. */
  lemma {:induction false} SelectedLengthBound(chain: seq<ClassInfo>, n: nat, accessorType: AccessorType)
    requires n <= |chain|
    ensures |Selected(chain, n, accessorType)| <= DeclaredFieldCount(chain, n)
  {
    if n > 0 {
      SelectedLengthBound(chain, n - 1, accessorType);
    }
  }

  /** For setters and withers no final field is collected; no static field
      ever is; and only the target class's own private fields can be. */
  lemma SelectedFilters(chain: seq<ClassInfo>, n: nat, accessorType: AccessorType, p: Position)
    requires n <= |chain| && p in Selected(chain, n, accessorType)
    ensures !IsStatic(chain[p.cls].fields[p.index].modifiers)
    ensures accessorType.RequiresModifiableField() ==> !IsFinal(chain[p.cls].fields[p.index].modifiers)
    ensures IsPrivate(chain[p.cls].fields[p.index].modifiers) ==> p.cls == 0
  {
    SelectedSound(chain, n, accessorType, p);
  }

  /** The walk stops before java.lang.Object: no collected field comes from
      Object or from a class above it. */
  lemma SelectedBelowObject(chain: seq<ClassInfo>, accessorType: AccessorType, p: Position)
    requires ObjectIndex(chain).Some?
    requires p in Selected(chain, ObjectIndex(chain).value, accessorType)
    ensures !IsObject(chain[p.cls]) && p.cls < ObjectIndex(chain).value
  {
  }
}
