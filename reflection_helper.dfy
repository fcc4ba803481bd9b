/** PixelMEDIA.PixelCore.Helpers.ReflectionHelper over a record model of
    reflection: a type is its list of public properties, an object is its type
    and the current value of each property. */
module ReflectionHelper {
  import opened Wrappers
  import opened Values
  import opened Seqs

  datatype Visibility = Public | NonPublic

  /** A PropertyInfo: the property's name, the name of its type, and the
      visibility of its get and set accessors (None when it has none). */
  datatype PropertyInfo = PropertyInfo(name: string, propertyType: string,
                                       getter: Option<Visibility>, setter: Option<Visibility>)
  {
    /** PropertyInfo.CanRead: the property has a get accessor. */
    predicate CanRead() { getter.Some? }
  }

  /** A Type, as Type.GetProperties() lists its public properties. */
  datatype TypeInfo = TypeInfo(properties: seq<PropertyInfo>)

  /** An object: its runtime type, fixed at creation, and its property values
      by name. */
  class Instance {
    const typ: TypeInfo
    var values: map<string, Value>

    /** Every property of the object's type has a value. */
    predicate Valid()
      reads this
    {
      forall p :: p in typ.properties ==> p.name in values
    }

    constructor (typ: TypeInfo, values: map<string, Value>)
      ensures this.typ == typ && this.values == values
    {
      this.typ := typ;
      this.values := values;
    }
  }

  /** The value PropertyInfo.GetValue reads for the property called name. */
  function ValueOf(values: map<string, Value>, name: string): Value {
    if name in values then values[name] else Null
  }

  /** HasPublicSetter: GetSetMethod() finds only a public set accessor. */
  predicate HasPublicSetter(p: PropertyInfo) {
    p.setter == Some(Public)
  }

  /** The test GetGetableProperties applies: CanRead, and GetGetMethod()
      (public accessors only) is non-null and public. */
  predicate IsGetable(p: PropertyInfo) {
    p.CanRead() && p.getter == Some(Public)
  }

  /** The first property called name, as Type.GetProperty(name) and LINQ
      FirstOrDefault find it. */
  function FirstNamed(props: seq<PropertyInfo>, name: string): (r: Option<PropertyInfo>)
    ensures r.None? <==> forall p :: p in props ==> p.name != name
    ensures r.Some? ==> exists i :: 0 <= i < |props| && props[i] == r.value && r.value.name == name &&
                                    forall j :: 0 <= j < i ==> props[j].name != name
  {
    if props == [] then None
    else if props[0].name == name then Some(props[0])
    else
      var r := FirstNamed(props[1..], name);
      assert forall p :: p in props ==> p == props[0] || p in props[1..];
      if r.Some? then
        ghost var i :| 0 <= i < |props[1..]| && props[1..][i] == r.value && r.value.name == name &&
                        forall j :: 0 <= j < i ==> props[1..][j].name != name;
        assert props[i + 1] == r.value;
        r
      else r
  }

  function Names(props: seq<PropertyInfo>): (r: seq<string>)
    ensures |r| == |props|
  {
    Map((p: PropertyInfo) => p.name, props)
  }

  predicate HasNamed(props: seq<PropertyInfo>, name: string) {
    exists p :: p in props && p.name == name
  }

  /** GetGetableProperties(Type t): the getable properties, in order. */
  method GetGetableProperties(t: TypeInfo) returns (props: seq<PropertyInfo>)
    ensures props == Filter(IsGetable, t.properties)
    ensures forall p :: p in props <==> p in t.properties && p.getter == Some(Public)
    ensures IsSubsequence(props, t.properties)
  {
    props := [];
    var i := 0;
    while i < |t.properties|
      invariant 0 <= i <= |t.properties|
      invariant props == Filter(IsGetable, t.properties[..i])
    {
      var prop := t.properties[i];
      FilterAppend(IsGetable, t.properties[..i], [prop]);
      assert t.properties[..i + 1] == t.properties[..i] + [prop];
      if prop.CanRead() && prop.getter == Some(Public) {
        props := props + [prop];
      }
      i := i + 1;
    }
    assert t.properties[..i] == t.properties;
    forall p
      ensures p in props <==> p in t.properties && p.getter == Some(Public)
    {
      FilterKeepsMembers(IsGetable, t.properties, p);
    }
    FilterIsSubsequence(IsGetable, t.properties);
  }

  /** For each field name, the first property of that name, if any. */
  function Picks(props: seq<PropertyInfo>, fieldNames: seq<string>): seq<PropertyInfo> {
    if fieldNames == [] then []
    else
      (match FirstNamed(props, fieldNames[0]) case Some(p) => [p] case None => []) + Picks(props, fieldNames[1..])
  }

  /** What GetSpecifiedPropertiesInFieldNameOrder returns. */
  function FieldNameOrder(props: seq<PropertyInfo>, fieldNames: seq<string>): seq<PropertyInfo> {
    if |fieldNames| > 0 then Picks(props, fieldNames) else props
  }

  /** GetSpecifiedPropertiesInFieldNameOrder(props, fieldNames). */
  method GetSpecifiedPropertiesInFieldNameOrder(props: seq<PropertyInfo>, fieldNames: seq<string>)
    returns (r: seq<PropertyInfo>)
    ensures r == FieldNameOrder(props, fieldNames)
  {
    if |fieldNames| > 0 {
      var propList := [];
      var i := 0;
      while i < |fieldNames|
        invariant 0 <= i <= |fieldNames|
        invariant propList + Picks(props, fieldNames[i..]) == Picks(props, fieldNames)
      {
        var prop := FirstNamed(props, fieldNames[i]);
        assert fieldNames[i..][1..] == fieldNames[i + 1..];
        if prop.Some? {
          propList := propList + [prop.value];
        }
        i := i + 1;
      }
      assert fieldNames[i..] == [];
      return propList;
    }
    return props;
  }

  /** GetGetableProperties(Type t, params string[] fieldNames). */
  method GetGetablePropertiesNamed(t: TypeInfo, fieldNames: seq<string>) returns (r: seq<PropertyInfo>)
    ensures r == FieldNameOrder(Filter(IsGetable, t.properties), fieldNames)
  {
    var props := GetGetableProperties(t);
    r := GetSpecifiedPropertiesInFieldNameOrder(props, fieldNames);
  }

  /** Without field names the properties come back unchanged. With field
      names, the result's names are the field names that name some property,
      in field-name order; each entry is the first property of that name. */
  lemma {:induction false} FieldNameOrderSpec(props: seq<PropertyInfo>, fieldNames: seq<string>)
    ensures fieldNames == [] ==> FieldNameOrder(props, fieldNames) == props
    ensures fieldNames != [] ==>
              var r := FieldNameOrder(props, fieldNames);
              && Names(r) == Filter((n: string) => HasNamed(props, n), fieldNames)
              && |r| <= |fieldNames|
              && forall i :: 0 <= i < |r| ==> FirstNamed(props, r[i].name) == Some(r[i])
  {
    if fieldNames != [] {
      PicksSpec(props, fieldNames);
    }
  }

  lemma {:induction false} PicksSpec(props: seq<PropertyInfo>, fieldNames: seq<string>)
    ensures var r := Picks(props, fieldNames);
            && Names(r) == Filter((n: string) => HasNamed(props, n), fieldNames)
            && forall i :: 0 <= i < |r| ==> FirstNamed(props, r[i].name) == Some(r[i])
  {
    if fieldNames != [] {
      PicksSpec(props, fieldNames[1..]);
      var head := match FirstNamed(props, fieldNames[0]) case Some(p) => [p] case None => [];
      var r := Picks(props, fieldNames);
      var rest := Picks(props, fieldNames[1..]);
      assert r == head + rest;
      assert Names(r) == Names(head) + Names(rest);
      if FirstNamed(props, fieldNames[0]).Some? {
        assert HasNamed(props, fieldNames[0]);
      } else {
        assert !HasNamed(props, fieldNames[0]);
      }
      forall i | 0 <= i < |r|
        ensures FirstNamed(props, r[i].name) == Some(r[i])
      {
        if i >= |head| {
          assert r[i] == rest[i - |head|];
        }
      }
    }
  }

  /** Whether CopyProperties copies source property p: the target type has a
      property of that name with a public setter and the same type. */
  predicate Matches(p: PropertyInfo, toType: TypeInfo) {
    match FirstNamed(toType.properties, p.name)
    case None => false
    case Some(pt) => HasPublicSetter(pt) && pt.propertyType == p.propertyType
  }

  /** The target values after CopyProperties has visited props, starting from
      acc: the values so far and, when a matching source property has no get
      accessor, the ArgumentException that GetValue throws there. */
  function CopyRest(props: seq<PropertyInfo>, fromValues: map<string, Value>, toType: TypeInfo,
                    acc: map<string, Value>): (map<string, Value>, Result<()>)
  {
    if props == [] then (acc, Ok(()))
    else if !Matches(props[0], toType) then CopyRest(props[1..], fromValues, toType, acc)
    else if !props[0].CanRead() then (acc, Err(Argument))
    else CopyRest(props[1..], fromValues, toType, acc[props[0].name := ValueOf(fromValues, props[0].name)])
  }

  /** CopyProperties(copyFrom, copyTo). A null argument throws before the loop;
      copyFrom and copyTo may be the same object. */
  method CopyProperties(copyFrom: Instance?, copyTo: Instance?) returns (r: Result<()>)
    requires copyFrom != null ==> copyFrom.Valid()
    requires copyTo != null ==> copyTo.Valid()
    modifies copyTo
    ensures copyFrom == null || copyTo == null ==> r == Err(NullReference) && (copyTo != null ==> unchanged(copyTo))
    ensures copyFrom != null && copyTo != null ==>
              (copyTo.values, r) ==
              CopyRest(copyFrom.typ.properties, old(copyFrom.values), copyTo.typ, old(copyTo.values))
  {
    if copyFrom == null || copyTo == null {
      return Err(NullReference);
    }
    var fromProps := copyFrom.typ.properties;
    var toType := copyTo.typ;
    ghost var fromValues := copyFrom.values;
    var i := 0;
    while i < |fromProps|
      invariant 0 <= i <= |fromProps|
      invariant copyTo.typ == toType && copyFrom.typ.properties == fromProps
      invariant copyFrom != copyTo ==> copyFrom.values == fromValues
      invariant copyFrom == copyTo ==> copyTo.values == fromValues
      invariant CopyRest(fromProps[i..], fromValues, toType, copyTo.values) ==
                CopyRest(fromProps, fromValues, toType, old(copyTo.values))
    {
      var propFrom := fromProps[i];
      assert fromProps[i..][0] == propFrom && fromProps[i..][1..] == fromProps[i + 1..];
      var propTo := FirstNamed(toType.properties, propFrom.name);
      if propTo.Some? && HasPublicSetter(propTo.value) && propTo.value.propertyType == propFrom.propertyType {
        if !propFrom.CanRead() {
          return Err(Argument);
        }
        var propertyValue := ValueOf(copyFrom.values, propFrom.name);
        copyTo.values := copyTo.values[propTo.value.name := propertyValue];
      }
      i := i + 1;
    }
    assert fromProps[i..] == [];
    return Ok(());
  }

  /** What CopyRest does, name by name: a name that some matching source
      property carries takes the source value, every other name keeps its
      value; and it fails exactly when a matching source property cannot be
      read. */
  lemma {:induction false} CopyRestSpec(props: seq<PropertyInfo>, fromValues: map<string, Value>, toType: TypeInfo,
                                        acc: map<string, Value>, name: string)
    ensures var (res, r) := CopyRest(props, fromValues, toType, acc);
            && (r.Err? <==> exists p :: p in props && Matches(p, toType) && !p.CanRead())
            && (r.Ok? ==> ValueOf(res, name) ==
                          if exists p :: p in props && p.name == name && Matches(p, toType)
                          then ValueOf(fromValues, name) else ValueOf(acc, name))
  {
    if props != [] {
      var p0 := props[0];
      assert forall p :: p in props ==> p == p0 || p in props[1..];
      if !Matches(p0, toType) {
        CopyRestSpec(props[1..], fromValues, toType, acc, name);
      } else if p0.CanRead() {
        var acc' := acc[p0.name := ValueOf(fromValues, p0.name)];
        CopyRestSpec(props[1..], fromValues, toType, acc', name);
      }
    }
  }

  /** The Equals override of the non-null values the core compares, as an
      oracle; the null cases are fixed by ObjectEquals. */
  type Equality = (Value, Value) -> bool

  /** Every property in props has equal values in the two value maps. */
  predicate SameValues(props: seq<PropertyInfo>, values1: map<string, Value>, values2: map<string, Value>,
                       equals: Equality)
  {
    forall p :: p in props ==> ObjectEquals(ValueOf(values1, p.name), ValueOf(values2, p.name), equals)
  }

  /** ShallowCompare<T>(object1, object2): compares the getable properties of
      T one by one and stops at the first difference. Reading a property of a
      null object throws TargetException. */
  method ShallowCompare(t: TypeInfo, object1: Instance?, object2: Instance?, equals: Equality)
    returns (r: Result<bool>)
    ensures Filter(IsGetable, t.properties) != [] && (object1 == null || object2 == null) ==> r == Err(Target)
    ensures Filter(IsGetable, t.properties) == [] ==> r == Ok(true)
    ensures object1 != null && object2 != null ==>
              r.Ok? && (r.value <==> SameValues(Filter(IsGetable, t.properties), object1.values, object2.values, equals))
  {
    var props := GetGetableProperties(t);
    var i := 0;
    while i < |props|
      invariant 0 <= i <= |props|
      invariant i > 0 ==> object1 != null && object2 != null
      invariant i > 0 ==> SameValues(props[..i], object1.values, object2.values, equals)
    {
      if object1 == null || object2 == null {
        return Err(Target);
      }
      var value1 := ValueOf(object1.values, props[i].name);
      var value2 := ValueOf(object2.values, props[i].name);
      if !ObjectEquals(value1, value2, equals) {
        NotSameValues(props, i, object1.values, object2.values, equals);
        return Ok(false);
      }
      SameValuesSnoc(props, i, object1.values, object2.values, equals);
      i := i + 1;
    }
    if i > 0 {
      assert props[..i] == props;
    }
    return Ok(true);
  }

  lemma SameValuesSnoc(props: seq<PropertyInfo>, i: nat, values1: map<string, Value>, values2: map<string, Value>,
                       equals: Equality)
    requires i < |props|
    requires i > 0 ==> SameValues(props[..i], values1, values2, equals)
    requires ObjectEquals(ValueOf(values1, props[i].name), ValueOf(values2, props[i].name), equals)
    ensures SameValues(props[..i + 1], values1, values2, equals)
  {
    assert props[..i + 1] == props[..i] + [props[i]];
  }

  lemma NotSameValues(props: seq<PropertyInfo>, i: nat, values1: map<string, Value>, values2: map<string, Value>,
                      equals: Equality)
    requires i < |props|
    requires !ObjectEquals(ValueOf(values1, props[i].name), ValueOf(values2, props[i].name), equals)
    ensures !SameValues(props, values1, values2, equals)
  {
    assert props[i] in props;
  }

  /** Convert.ChangeType(value, type) as an oracle: None where it throws. */
  type ChangeType = (Value, string) -> Option<Value>

  /** SetPropertyValue(obj, propertyName, propertyValue). Every exception is
      swallowed: a missing property (GetProperty returns null), a failed
      conversion, or a property without any set accessor leaves the object as
      it was. PropertyInfo.SetValue also uses a non-public setter. */
  method SetPropertyValue(obj: Instance?, propertyName: Option<string>, propertyValue: Value, changeType: ChangeType)
    modifies obj
    ensures obj != null && propertyName.Some? && propertyName.value != [] &&
            FirstNamed(obj.typ.properties, propertyName.value).Some? &&
            FirstNamed(obj.typ.properties, propertyName.value).value.setter.Some? &&
            changeType(propertyValue, FirstNamed(obj.typ.properties, propertyName.value).value.propertyType).Some?
            ==> obj.values == old(obj.values)[propertyName.value :=
                  changeType(propertyValue, FirstNamed(obj.typ.properties, propertyName.value).value.propertyType).value]
    ensures obj != null && !(propertyName.Some? && propertyName.value != [] &&
            FirstNamed(obj.typ.properties, propertyName.value).Some? &&
            FirstNamed(obj.typ.properties, propertyName.value).value.setter.Some? &&
            changeType(propertyValue, FirstNamed(obj.typ.properties, propertyName.value).value.propertyType).Some?)
            ==> obj.values == old(obj.values)
  {
    if obj != null && propertyName.Some? && propertyName.value != [] {
      var prop := FirstNamed(obj.typ.properties, propertyName.value);
      if prop.None? {
        return;  // prop.GetType() throws NullReferenceException
      }
      var converted := changeType(propertyValue, prop.value.propertyType);
      if converted.None? {
        return;
      }
      if prop.value.setter.None? {
        return;  // SetValue throws ArgumentException
      }
      obj.values := obj.values[prop.value.name := converted.value];
    }
  }
}
