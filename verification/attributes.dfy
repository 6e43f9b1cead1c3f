/** The attribute classifier: `getAttributes` (both overloads),
    `isTypeOrElementType` and `getMappedBy`, over a metamodel given as plain
    values. Class assignability is a relation passed in by the caller, and
    the annotations reflection would find on a field or getter are given as a
    list. */
module Attributes {
  import opened Wrappers
  import opened Criteria

  /** `javax.persistence.metamodel.Attribute.PersistentAttributeType`. */
  datatype PersistentType =
    | ManyToOne | OneToOne | Basic | Embedded | ManyToMany | OneToMany | ElementCollection

  /** The metamodel interface an attribute implements: a singular attribute,
      or a plural one typed as a `Collection` (`CollectionAttribute`), `Set`,
      `List` or `Map`. */
  datatype Plurality = Singular | BagOf | SetOf | ListOf | MapOf {
    predicate IsCollection() { this != Singular }
  }

  /** The mapping annotations `getMappedBy` looks for, and any other one. */
  datatype Annotation =
    | OneToManyAnn(mappedBy: string)
    | ManyToManyAnn(mappedBy: string)
    | OneToOneAnn(mappedBy: string)
    | OtherAnn(name: string)
  {
    predicate IsMapping() { !OtherAnn? }
  }

  /** The Java member behind an attribute, with its annotations when it is a
      field or a method. */
  datatype Member =
    | FieldMember(annotations: seq<Annotation>)
    | MethodMember(annotations: seq<Annotation>)
    | OtherMember

  /** An attribute of an entity: `javaType` is its declared type and
      `elementType` the element type of a plural attribute. */
  datatype Attribute = Attribute(
    name: string,
    persistentType: PersistentType,
    javaType: TypeToken,
    plurality: Plurality,
    elementType: TypeToken,
    isAssociation: bool,
    member: Member)

  datatype EntityType = EntityType(javaType: TypeToken, attributes: seq<Attribute>)

  /** The `ClassCastException` raised when a plural attribute that is not a
      `CollectionAttribute` is cast to one. */
  datatype CastError = ClassCast(attribute: string)

  /** `clazz.isAssignableFrom(t)`, as given by the caller. */
  type Assignable = (TypeToken, TypeToken) -> bool

  /** `isTypeOrElementType`: whether `clazz` is assignable from the
      attribute's type, or from its element type when it is plural. The plural
      case casts to `CollectionAttribute`, which only `Collection`-typed
      attributes implement; the others raise a cast error. */
  function IsTypeOrElementType(a: Attribute, clazz: TypeToken, assignable: Assignable): (r: Result<bool, CastError>)
    ensures r.Failure? <==> a.plurality in {SetOf, ListOf, MapOf}
    ensures r.Failure? ==> r.error == ClassCast(a.name)
    ensures r == Success(true) <==>
              if a.plurality == Singular then assignable(clazz, a.javaType)
              else a.plurality == BagOf && assignable(clazz, a.elementType)
  {
    if a.plurality.IsCollection() then
      if a.plurality.BagOf? then Success(assignable(clazz, a.elementType))
      else Failure(ClassCast(a.name))
    else Success(assignable(clazz, a.javaType))
  }

  /** The attribute is kept by the filter of `getAttributes`. */
  predicate Selected(a: Attribute, pt: PersistentType, clazz: TypeToken, assignable: Assignable) {
    a.persistentType == pt && IsTypeOrElementType(a, clazz, assignable) == Success(true)
  }

  /** The type test raises for the attribute, which it only reaches when the
      persistent type matches. */
  predicate Raises(a: Attribute, pt: PersistentType, clazz: TypeToken, assignable: Assignable) {
    a.persistentType == pt && IsTypeOrElementType(a, clazz, assignable).Failure?
  }

  /** The loop of `getAttributes` over the attributes in `attrs`. */
  function FilterAttributes(attrs: seq<Attribute>, pt: PersistentType, clazz: TypeToken, assignable: Assignable)
    : (r: Result<set<Attribute>, CastError>)
    ensures r.Failure? <==> exists i :: 0 <= i < |attrs| && Raises(attrs[i], pt, clazz, assignable)
    ensures r.Success? ==> forall a :: a in r.value <==> a in attrs && Selected(a, pt, clazz, assignable)
    decreases |attrs|
  {
    if |attrs| == 0 then Success({})
    else
      var a := attrs[0];
      var rest := FilterAttributes(attrs[1..], pt, clazz, assignable);
      if a.persistentType != pt then
        assert !Raises(a, pt, clazz, assignable);
        assert forall i :: 1 <= i < |attrs| ==> attrs[i] == attrs[1..][i - 1];
        rest
      else
        match IsTypeOrElementType(a, clazz, assignable)
        case Failure(e) => Failure(e)
        case Success(ok) =>
          assert forall i :: 1 <= i < |attrs| ==> attrs[i] == attrs[1..][i - 1];
          match rest
          case Failure(e) => Failure(e)
          case Success(s) => Success(if ok then s + {a} else s)
  }

  /** `getAttributes(type, persistentType, clazz)`: the entity's attributes
      of that persistent type whose type, or element type, `clazz` is
      assignable from; a cast error when one of that persistent type is a
      non-`Collection` plural attribute. */
  function GetAttributes(t: EntityType, pt: PersistentType, clazz: TypeToken, assignable: Assignable)
    : (r: Result<set<Attribute>, CastError>)
    ensures r.Failure? <==> exists i :: 0 <= i < |t.attributes| && Raises(t.attributes[i], pt, clazz, assignable)
    ensures r.Success? ==> r.value == set a | a in t.attributes && Selected(a, pt, clazz, assignable)
  {
    FilterAttributes(t.attributes, pt, clazz, assignable)
  }

  /** `getAttributes(type, persistentType)`: the same with `Object` as the
      class. */
  function GetAttributesOfType(t: EntityType, pt: PersistentType, assignable: Assignable)
    : (r: Result<set<Attribute>, CastError>)
    ensures r.Failure? <==> exists i :: 0 <= i < |t.attributes| && Raises(t.attributes[i], pt, ObjectType, assignable)
    ensures r.Success? ==> r.value == set a | a in t.attributes && Selected(a, pt, ObjectType, assignable)
  {
    GetAttributes(t, pt, ObjectType, assignable)
  }

  /** The type `isTypeOrElementType` tests: the declared type of a singular
      attribute, the element type of a plural one. */
  function TestedType(a: Attribute): TypeToken {
    if a.plurality == Singular then a.javaType else a.elementType
  }

  /** `Object` is assignable from the tested type of every attribute of the
      persistent type. */
  predicate ObjectAcceptsTested(t: EntityType, pt: PersistentType, assignable: Assignable) {
    forall i :: 0 <= i < |t.attributes| && t.attributes[i].persistentType == pt ==>
      assignable(ObjectType, TestedType(t.attributes[i]))
  }

  /** When `Object` is assignable from the tested type of each attribute of
      the persistent type, the default overload keeps every such attribute:
      the class filter drops nothing. The call still fails with the cast
      error exactly when one of those attributes is a `Set`, `List` or `Map`. */
  lemma GetAttributesOfTypeKeepsAll(t: EntityType, pt: PersistentType, assignable: Assignable)
    requires ObjectAcceptsTested(t, pt, assignable)
    ensures var r := GetAttributesOfType(t, pt, assignable);
            r.Success? <==> forall i :: 0 <= i < |t.attributes| && t.attributes[i].persistentType == pt ==>
                                          t.attributes[i].plurality !in {SetOf, ListOf, MapOf}
    ensures var r := GetAttributesOfType(t, pt, assignable);
            r.Success? ==> r.value == set a | a in t.attributes && a.persistentType == pt
  {
    var r := GetAttributesOfType(t, pt, assignable);
    if r.Success? {
      forall a | a in t.attributes && a.persistentType == pt
        ensures a in r.value
      {
        var i :| 0 <= i < |t.attributes| && t.attributes[i] == a;
        assert !Raises(t.attributes[i], pt, ObjectType, assignable);
      }
    }
  }

  /** The Java primitive classes, from which `Object.class` is not
      assignable. */
  const JavaPrimitives: set<TypeToken> :=
    {"boolean", "byte", "char", "short", "int", "long", "float", "double"}

  /** With Java's assignability, an attribute reported with a primitive class
      is dropped by the default overload: of `Person { int age; String name }`
      only `name` comes back as a basic attribute. */
  lemma DefaultOverloadDropsPrimitive()
    ensures var assignable := (c: TypeToken, x: TypeToken) => c == x || (c == ObjectType && x !in JavaPrimitives);
            var age := Attribute("age", Basic, "int", Singular, "", false, OtherMember);
            var name := Attribute("name", Basic, "java.lang.String", Singular, "", false, OtherMember);
            GetAttributesOfType(EntityType("Person", [age, name]), Basic, assignable) == Success({name})
  {
    var assignable := (c: TypeToken, x: TypeToken) => c == x || (c == ObjectType && x !in JavaPrimitives);
    var age := Attribute("age", Basic, "int", Singular, "", false, OtherMember);
    var name := Attribute("name", Basic, "java.lang.String", Singular, "", false, OtherMember);
    assert "int" in JavaPrimitives;
    assert "java.lang.String" !in JavaPrimitives;
    assert !Selected(age, Basic, ObjectType, assignable);
    assert Selected(name, Basic, ObjectType, assignable);
    var r := GetAttributesOfType(EntityType("Person", [age, name]), Basic, assignable);
    assert r.Success?;
    assert r.value == {name};
  }

  /** `anns[i]` is the first mapping annotation of `anns`. */
  predicate FirstMappingAt(anns: seq<Annotation>, i: int) {
    && 0 <= i < |anns|
    && anns[i].IsMapping()
    && forall k :: 0 <= k < i ==> !anns[k].IsMapping()
  }

  /** The `mappedBy` of the first `OneToMany`, `ManyToMany` or `OneToOne`
      annotation, the loop stopping there; `None` when there is none. */
  function FirstMappedBy(anns: seq<Annotation>): (r: Option<string>)
    ensures r.None? <==> forall i :: 0 <= i < |anns| ==> !anns[i].IsMapping()
    ensures forall i :: FirstMappingAt(anns, i) ==> r == Some(anns[i].mappedBy)
  {
    if |anns| == 0 then None
    else if anns[0].IsMapping() then Some(anns[0].mappedBy)
    else
      var r := FirstMappedBy(anns[1..]);
      assert forall i :: FirstMappingAt(anns, i) ==> FirstMappingAt(anns[1..], i - 1);
      assert forall i :: 1 <= i < |anns| ==> anns[i] == anns[1..][i - 1];
      r
  }

  /** Annotations after the first mapping annotation are never looked at. */
  lemma {:induction false} FirstMappedByIgnoresLater(anns: seq<Annotation>, more: seq<Annotation>)
    requires exists i :: 0 <= i < |anns| && anns[i].IsMapping()
    ensures FirstMappedBy(anns + more) == FirstMappedBy(anns)
    decreases |anns|
  {
    assert (anns + more)[0] == anns[0];
    if !anns[0].IsMapping() {
      var i :| 0 <= i < |anns| && anns[i].IsMapping();
      assert anns[1..][i - 1] == anns[i];
      FirstMappedByIgnoresLater(anns[1..], more);
      assert (anns + more)[1..] == anns[1..] + more;
    }
  }

  /** `getMappedBy`: for an association, the `mappedBy` of the first mapping
      annotation on its field or getter; `None` for anything else, when there
      is no such annotation, and when it is the empty string (the
      annotation's default). Reflection finds no annotations on other
      members, and the Java loop would then fail, so those are excluded. */
  function GetMappedBy(a: Attribute): (r: Option<string>)
    requires a.isAssociation ==> !a.member.OtherMember?
    ensures !a.isAssociation ==> r.None?
    ensures r.Some? ==> r.value != ""
    ensures (a.isAssociation && forall i :: 0 <= i < |a.member.annotations| ==> !a.member.annotations[i].IsMapping())
            ==> r.None?
    ensures a.isAssociation ==>
              forall i :: FirstMappingAt(a.member.annotations, i) ==>
                if a.member.annotations[i].mappedBy == "" then r.None?
                else r == Some(a.member.annotations[i].mappedBy)
  {
    var mappedBy := if a.isAssociation then FirstMappedBy(a.member.annotations) else None;
    if mappedBy == Some("") then None else mappedBy
  }
}
