/** Property values and the records of the graph layer.

    A PropertyValue is an INT, a FLOAT or a STRING.  Equality and ordering
    compare the type first (INT < FLOAT < STRING) and then the values.  A
    FLOAT is kept as its 32-bit IEEE-754 pattern; its comparisons follow
    IEEE-754 (NaN is unordered, -0 equals +0); of them only that `<` is
    irreflexive and transitive is proved.

    `Node` and `Edge` hold their properties in a map; `SNode` and `SEdge`,
    the records stored in pages, hold them in two parallel arrays of
    MAX_PROPERTY_COUNT entries, of which the first property_count are in
    use; here that prefix is a sequence of (name, value) pairs. */
module Property {
  import opened Common

  datatype PropertyValue =
    | IntValue(i: Int32)
    | FloatValue(bits: Uint32)
    | StringValue(s: string)

  /** The FieldType of a value: INT = 0, FLOAT = 1, STRING = 2. */
  function TypeOf(v: PropertyValue): nat {
    match v
    case IntValue(_) => 0
    case FloatValue(_) => 1
    case StringValue(_) => 2
  }

  // ---------------------------------------------------------------- floats

  /** The bits of a float without its sign. */
  function Magnitude(bits: Uint32): nat { bits % 0x8000_0000 }

  predicate IsNaN(bits: Uint32) { Magnitude(bits) > 0x7F80_0000 }

  /** An integer that orders non-NaN floats as their values are ordered. */
  function FloatKey(bits: Uint32): int {
    if bits >= 0x8000_0000 then -(Magnitude(bits) as int) else Magnitude(bits)
  }

  predicate FloatEq(a: Uint32, b: Uint32) {
    !IsNaN(a) && !IsNaN(b) && FloatKey(a) == FloatKey(b)
  }

  predicate FloatLess(a: Uint32, b: Uint32) {
    !IsNaN(a) && !IsNaN(b) && FloatKey(a) < FloatKey(b)
  }

  // ---------------------------------------------------------------- strings

  /** std::string's operator<: lexicographic, a proper prefix first. */
  predicate StringLess(a: string, b: string)
    decreases |a|
  {
    if a == [] then b != []
    else if b == [] then false
    else if a[0] != b[0] then a[0] < b[0]
    else StringLess(a[1..], b[1..])
  }

  lemma {:induction false} StringLessIrreflexive(a: string)
    ensures !StringLess(a, a)
    decreases |a|
  {
    if a != [] {
      StringLessIrreflexive(a[1..]);
    }
  }

  lemma {:induction false} StringLessTransitive(a: string, b: string, c: string)
    requires StringLess(a, b) && StringLess(b, c)
    ensures StringLess(a, c)
    decreases |a|
  {
    if a != [] && a[0] == b[0] && b[0] == c[0] {
      StringLessTransitive(a[1..], b[1..], c[1..]);
    }
  }

  lemma {:induction false} StringLessTotal(a: string, b: string)
    requires a != b
    ensures StringLess(a, b) || StringLess(b, a)
    decreases |a|
  {
    if a != [] && b != [] && a[0] == b[0] {
      assert a == [a[0]] + a[1..] && b == [b[0]] + b[1..];
      StringLessTotal(a[1..], b[1..]);
    }
  }

  // ---------------------------------------------------------------- values

  /** PropertyValue::operator==. */
  predicate Equal(a: PropertyValue, b: PropertyValue) {
    if TypeOf(a) != TypeOf(b) then false
    else match a
      case IntValue(x) => x == b.i
      case FloatValue(x) => FloatEq(x, b.bits)
      case StringValue(x) => x == b.s
  }

  /** PropertyValue::operator<. */
  predicate Less(a: PropertyValue, b: PropertyValue) {
    if TypeOf(a) != TypeOf(b) then TypeOf(a) < TypeOf(b)
    else match a
      case IntValue(x) => x < b.i
      case FloatValue(x) => FloatLess(x, b.bits)
      case StringValue(x) => StringLess(x, b.s)
  }

  /** Outside FLOAT, operator== is equality of the type and the value. */
  lemma EqualIsSameValue(a: PropertyValue, b: PropertyValue)
    requires !a.FloatValue?
    ensures Equal(a, b) <==> a == b
  {
  }

  /** Values of different types are never equal, and order by type. */
  lemma TypeFirst(a: PropertyValue, b: PropertyValue)
    requires TypeOf(a) != TypeOf(b)
    ensures !Equal(a, b)
    ensures Less(a, b) <==> TypeOf(a) < TypeOf(b)
  {
  }

  lemma LessIrreflexive(a: PropertyValue)
    ensures !Less(a, a)
  {
    if a.StringValue? {
      StringLessIrreflexive(a.s);
    }
  }

  lemma LessTransitive(a: PropertyValue, b: PropertyValue, c: PropertyValue)
    requires Less(a, b) && Less(b, c)
    ensures Less(a, c)
  {
    if a.StringValue? && b.StringValue? && c.StringValue? {
      StringLessTransitive(a.s, b.s, c.s);
    }
  }

  /** Outside FLOAT, exactly one of a < b, a == b, b < a holds. */
  lemma Trichotomy(a: PropertyValue, b: PropertyValue)
    requires !a.FloatValue? && !b.FloatValue?
    ensures Less(a, b) || Equal(a, b) || Less(b, a)
    ensures !(Less(a, b) && Equal(a, b)) && !(Less(b, a) && Equal(a, b)) && !(Less(a, b) && Less(b, a))
  {
    if a.StringValue? && b.StringValue? {
      if a.s != b.s {
        StringLessTotal(a.s, b.s);
      } else {
        StringLessIrreflexive(a.s);
      }
      if StringLess(a.s, b.s) && StringLess(b.s, a.s) {
        StringLessTransitive(a.s, b.s, a.s);
        StringLessIrreflexive(a.s);
      }
    }
  }

  /** PropertyValue::asInt: throws bad_variant_access unless an INT. */
  function AsInt(v: PropertyValue): (r: Result<Int32>)
    ensures r.Ok? <==> v.IntValue?
    ensures r.Ok? ==> r.value == v.i && Equal(v, IntValue(r.value))
    ensures r.Err? ==> r.error == BadVariantAccess
  {
    if v.IntValue? then Ok(v.i) else Err(BadVariantAccess)
  }

  /** PropertyValue::asFloat. */
  function AsFloat(v: PropertyValue): (r: Result<Uint32>)
    ensures r.Ok? <==> v.FloatValue?
    ensures r.Ok? ==> r.value == v.bits
    ensures r.Err? ==> r.error == BadVariantAccess
  {
    if v.FloatValue? then Ok(v.bits) else Err(BadVariantAccess)
  }

  /** PropertyValue::asString. */
  function AsString(v: PropertyValue): (r: Result<string>)
    ensures r.Ok? <==> v.StringValue?
    ensures r.Ok? ==> r.value == v.s && Equal(v, StringValue(r.value))
    ensures r.Err? ==> r.error == BadVariantAccess
  {
    if v.StringValue? then Ok(v.s) else Err(BadVariantAccess)
  }

  // ---------------------------------------------------------------- map-based records

  const MAX_PROPERTY_COUNT: nat := 10

  /** The properties of a Node or an Edge and its property_count. */
  datatype Bag = Bag(properties: map<string, PropertyValue>, count: nat)

  const EMPTY_BAG: Bag := Bag(map[], 0)

  /** addProperty: refused once property_count reaches MAX_PROPERTY_COUNT;
      otherwise the name is set (replacing an earlier value) and the count
      goes up by one either way. */
  function AddProperty(b: Bag, name: string, value: PropertyValue): (r: Result<Bag>)
    ensures r.Err? <==> b.count >= MAX_PROPERTY_COUNT
    ensures r.Err? ==> r.error == Overflow
    ensures r.Ok? ==> name in r.value.properties && r.value.properties[name] == value
    ensures r.Ok? ==> r.value.count == b.count + 1
    ensures r.Ok? ==> forall n :: n != name ==> GetProperty(r.value, n) == GetProperty(b, n)
  {
    if b.count >= MAX_PROPERTY_COUNT then Err(Overflow)
    else Ok(Bag(b.properties[name := value], b.count + 1))
  }

  /** getProperty. */
  function GetProperty(b: Bag, name: string): Option<PropertyValue> {
    if name in b.properties then Some(b.properties[name]) else None
  }

  /** removeProperty: whether the name was there. */
  function RemoveProperty(b: Bag, name: string): (r: (Bag, bool))
    ensures r.1 <==> name in b.properties
    ensures GetProperty(r.0, name) == None
    ensures forall n :: n != name ==> GetProperty(r.0, n) == GetProperty(b, n)
    ensures BagOk(b) ==> r.0.count == if r.1 then b.count - 1 else b.count
  {
    // property_count cannot be 0 while a property is held (BagOk)
    if name in b.properties then (Bag(b.properties - {name}, if b.count > 0 then b.count - 1 else 0), true)
    else (b, false)
  }

  /** property_count never falls below the number of properties held. */
  predicate BagOk(b: Bag) {
    |b.properties.Keys| <= b.count
  }

  lemma AddKeepsBagOk(b: Bag, name: string, value: PropertyValue)
    requires BagOk(b) && AddProperty(b, name, value).Ok?
    ensures BagOk(AddProperty(b, name, value).value)
  {
    var k := b.properties.Keys;
    assert b.properties[name := value].Keys == k + {name};
    assert |k + {name}| <= |k| + 1;
  }

  lemma RemoveKeepsBagOk(b: Bag, name: string)
    requires BagOk(b)
    ensures BagOk(RemoveProperty(b, name).0)
  {
    if name in b.properties {
      assert (b.properties - {name}).Keys == b.properties.Keys - {name};
    }
  }

  /** Setting a property that is already there replaces its value but still
      uses up one of the MAX_PROPERTY_COUNT additions. */
  lemma OverwriteStillCounts(b: Bag, name: string, value: PropertyValue)
    requires name in b.properties && b.count < MAX_PROPERTY_COUNT
    ensures AddProperty(b, name, value).Ok?
    ensures AddProperty(b, name, value).value.properties.Keys == b.properties.Keys
    ensures AddProperty(b, name, value).value.count == b.count + 1
  {
  }

  datatype Node = Node(id: Uint32, bag: Bag)
  datatype Edge = Edge(id: Uint32, source: Uint32, target: Uint32, bag: Bag)

  // ---------------------------------------------------------------- packed records

  /** The properties of an SNode or SEdge in insertion order. */
  type Entries = seq<(string, PropertyValue)>

  datatype SNode = SNode(id: Uint32, entries: Entries)
  datatype SEdge = SEdge(id: Uint32, source: Uint32, target: Uint32, entries: Entries)

  /** SNode/SEdge::addProperty: the pair goes to index property_count;
      refused, with nothing changed, once MAX_PROPERTY_COUNT are held. */
  function AddEntry(e: Entries, name: string, value: PropertyValue): (r: Result<Entries>)
    ensures r.Err? <==> |e| >= MAX_PROPERTY_COUNT
    ensures r.Err? ==> r.error == Overflow
    ensures r.Ok? ==> |r.value| == |e| + 1 && r.value[|e|] == (name, value) && r.value[..|e|] == e
  {
    if |e| >= MAX_PROPERTY_COUNT then Err(Overflow) else Ok(e + [(name, value)])
  }

  /** The map that adding the entries one by one produces. */
  function EntriesMap(e: Entries): map<string, PropertyValue>
    decreases |e|
  {
    if e == [] then map[]
    else EntriesMap(e[..|e| - 1])[e[|e| - 1].0 := e[|e| - 1].1]
  }

  /** A name is in the converted map iff some entry has it, and it maps to the
      value of the last entry with that name. */
  lemma {:induction false} EntriesMapLast(e: Entries, name: string)
    ensures name in EntriesMap(e) <==> exists i :: 0 <= i < |e| && e[i].0 == name
    ensures forall i :: 0 <= i < |e| && e[i].0 == name && (forall j :: i < j < |e| ==> e[j].0 != name) ==>
      EntriesMap(e)[name] == e[i].1
    decreases |e|
  {
    if e != [] {
      var init := e[..|e| - 1];
      EntriesMapLast(init, name);
      forall i | 0 <= i < |init| ensures init[i] == e[i] { }
      if e[|e| - 1].0 != name {
        assert (exists i :: 0 <= i < |e| && e[i].0 == name) ==> (exists i :: 0 <= i < |init| && init[i].0 == name);
      }
    }
  }

  /** The SNode/SEdge::convert loop: each entry added in turn with
      addProperty, which never overflows since at most MAX_PROPERTY_COUNT
      entries are held. */
  method ConvertEntries(e: Entries) returns (b: Bag)
    requires |e| <= MAX_PROPERTY_COUNT
    ensures b == Bag(EntriesMap(e), |e|)
  {
    b := EMPTY_BAG;
    var i: nat := 0;
    while i < |e|
      invariant 0 <= i <= |e|
      invariant b == Bag(EntriesMap(e[..i]), i)
    {
      var r := AddProperty(b, e[i].0, e[i].1);
      b := r.value;
      assert e[..i + 1][..i] == e[..i];
      i := i + 1;
    }
    assert e[..|e|] == e;
  }

  /** SNode::convert. */
  method ConvertNode(s: SNode) returns (n: Node)
    requires |s.entries| <= MAX_PROPERTY_COUNT
    ensures n == NodeOf(s)
  {
    var b := ConvertEntries(s.entries);
    n := Node(s.id, b);
  }

  /** SEdge::convert. */
  method ConvertEdge(s: SEdge) returns (r: Edge)
    requires |s.entries| <= MAX_PROPERTY_COUNT
    ensures r == EdgeOf(s)
  {
    var b := ConvertEntries(s.entries);
    r := Edge(s.id, s.source, s.target, b);
  }

  /** What convert gives: the same id (and source and target) and the map
      of the entries. */
  function NodeOf(s: SNode): Node {
    Node(s.id, Bag(EntriesMap(s.entries), |s.entries|))
  }

  function EdgeOf(s: SEdge): Edge {
    Edge(s.id, s.source, s.target, Bag(EntriesMap(s.entries), |s.entries|))
  }

  /** A converted record satisfies the map-based records' invariant. */
  lemma {:induction false} ConvertedBagOk(e: Entries)
    ensures BagOk(Bag(EntriesMap(e), |e|))
    decreases |e|
  {
    if e != [] {
      ConvertedBagOk(e[..|e| - 1]);
      var m := EntriesMap(e[..|e| - 1]);
      assert m[e[|e| - 1].0 := e[|e| - 1].1].Keys == m.Keys + {e[|e| - 1].0};
      assert |m.Keys + {e[|e| - 1].0}| <= |m.Keys| + 1;
    }
  }
}
