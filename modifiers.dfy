/** The field access flags of java.lang.reflect.Modifier, as laid down in
    section 4.5 of the Java Virtual Machine Specification. A modifier set is
    a Java int, so a 32-bit vector. */
module Modifiers {

  type ModifierBits = bv32

  const ACC_PUBLIC: ModifierBits := 0x0001
  const ACC_PRIVATE: ModifierBits := 0x0002
  const ACC_PROTECTED: ModifierBits := 0x0004
  const ACC_STATIC: ModifierBits := 0x0008
  const ACC_FINAL: ModifierBits := 0x0010

  predicate IsPublic(m: ModifierBits) { m & ACC_PUBLIC != 0 }
  predicate IsPrivate(m: ModifierBits) { m & ACC_PRIVATE != 0 }
  predicate IsProtected(m: ModifierBits) { m & ACC_PROTECTED != 0 }
  predicate IsStatic(m: ModifierBits) { m & ACC_STATIC != 0 }
  predicate IsFinal(m: ModifierBits) { m & ACC_FINAL != 0 }

  /** Section 4.5 of the JVM Specification: a field has at most one of
      ACC_PUBLIC, ACC_PRIVATE and ACC_PROTECTED set. */
  predicate WellFormedAccess(m: ModifierBits)
  {
    !(IsPublic(m) && IsPrivate(m)) && !(IsPublic(m) && IsProtected(m)) && !(IsPrivate(m) && IsProtected(m))
  }

  /** The four access levels of section 6.6 of the Java Language Specification. */
  datatype AccessLevel = Private | PackageAccess | Protected | Public

  /** The access level a well-formed modifier set denotes; no flag means package access. */
  function AccessLevelOf(m: ModifierBits): (level: AccessLevel)
    requires WellFormedAccess(m)
    ensures level == Private <==> IsPrivate(m)
  {
    if IsPublic(m) then Public
    else if IsProtected(m) then Protected
    else if IsPrivate(m) then Private
    else PackageAccess
  }

  /** Section 6.6.1 of the Java Language Specification, for a member of an
      ancestor class seen from a subclass: public and protected members are
      accessible, package access members only from the same package, private
      members never. */
  predicate InheritedMemberAccessible(level: AccessLevel, samePackage: bool)
  {
    match level
    case Public => true
    case Protected => true
    case PackageAccess => samePackage
    case Private => false
  }
}
