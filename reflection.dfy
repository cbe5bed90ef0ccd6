/** What the analyzer reads of a loaded class through reflection. The JDK
    calls (getDeclaredFields, getDeclaredMethod, getMethod, getPackage,
    getSuperclass) are replaced by the data they would return. */
module Reflection {
  import opened Wrappers
  import opened Modifiers

  /** A Java identifier is never empty. */
  type Identifier = s: string | |s| > 0 witness "x"

  /** A Class<?> used as a type: its binary name (what identifies it) and
      its getSimpleName(). */
  datatype TypeRef = TypeRef(name: string, simpleName: string)

  /** A java.lang.reflect.Field: getName(), getType(), getModifiers(). */
  datatype FieldInfo = FieldInfo(name: Identifier, fieldType: TypeRef, modifiers: ModifierBits)

  /** The key of a method lookup: its name and its single parameter type, or
      no parameter at all. */
  datatype MethodSig = MethodSig(name: string, param: Option<TypeRef>)

  /** A loaded class: its name, its package name, its declared fields in
      the order getDeclaredFields returns them, the signatures getDeclaredMethod finds (any
      visibility, this class only) and the signatures getMethod finds
      (public, declared or inherited). */
  datatype ClassInfo = ClassInfo(
    name: string,
    package: string,
    fields: seq<FieldInfo>,
    declaredMethods: set<MethodSig>,
    publicMethods: set<MethodSig>)

  const OBJECT_CLASS_NAME: string := "java.lang.Object"

  /** The test `currentClass.equals(Object.class)`. */
  predicate IsObject(c: ClassInfo)
  {
    c.name == OBJECT_CLASS_NAME
  }

  /** Class.getDeclaredMethod(name, param...) returns without throwing. */
  predicate DeclaresMethod(c: ClassInfo, sig: MethodSig)
  {
    sig in c.declaredMethods
  }

  /** Class.getMethod(name, param...) returns without throwing. */
  predicate HasPublicMethod(c: ClassInfo, sig: MethodSig)
  {
    sig in c.publicMethods
  }
}
