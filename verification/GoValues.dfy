/** The part of Go's types, values and reflection the filter depends on.

    Struct types live in a table, so they may refer to themselves; pointers are
    addresses into a heap, so values may be cyclic. */
module GoValues {
  import opened Common

  // ---------- types ----------

  datatype Kind =
    | Int | Int8 | Int16 | Int32 | Int64
    | Uint | Uint8 | Uint16 | Uint32 | Uint64
    | Float32 | Float64 | String | Array | Slice | Map | Other

  datatype GoType =
    | Plain(name: string, kind: Kind)   // every type that is not one of the three below
    | Struct(id: nat)                   // an entry of the struct table
    | Pointer(elem: GoType)
    | Interface(name: string)

  datatype FieldDef = FieldDef(typ: GoType, exported: bool, embedded: bool)
  datatype StructDef = StructDef(name: string, fields: seq<FieldDef>)

  /** What reflection returns for a visible field: where it is, its type, its tags. */
  datatype StructField = StructField(index: seq<nat>, typ: GoType, tags: map<string, string>)

  // ---------- values ----------

  datatype Float = NaN | NegInf | Finite(r: real) | PosInf

  /** The content of an `interface{}`. */
  datatype Value =
    | Nil
    | Integer(t: GoType, i: int)
    | Floating(t: GoType, f: Float)
    | Text(t: GoType, s: string)
    | Collection(t: GoType, len: nat, identity: int)    // array, map or slice
    | Record(def: nat, fields: seq<Value>)
    | Reference(elem: GoType, target: Option<nat>)  // None is the nil pointer
    | Opaque(t: GoType, identity: int)                 // bool, complex, func, chan, ...

  datatype Cell = Cell(typ: GoType, content: Value)

  datatype Error =
    | FieldNotFound | NilObject | NotAStruct | CannotInterface
    | UnsupportedType | BadRuleValue | BadRegexp

  datatype Fault = NilPointer | BadField | Uncomparable | ZeroValue

  datatype Outcome<+T> = Ok(value: T) | Err(error: Error) | Panic(fault: Fault)

  /** Everything the code takes from the Go runtime and the standard library. */
  datatype World = World(
    types: set<GoType>,                            // the dynamic types the program hands to the filter
    defs: seq<StructDef>,
    byName: (nat, string) -> Option<StructField>,  // reflect.Type.FieldByName
    visible: nat -> seq<StructField>,              // reflect.VisibleFields
    heap: map<nat, Cell>,
    float64: int -> Float,                         // conversion of an integer to float64
    truncate: Float -> int,                        // conversion of a float64 to int
    compare: (Value, Value) -> Outcome<bool>,      // == on two records, collections or opaque values of one type
    fold: (string, string) -> bool,                // strings.EqualFold
    compiles: string -> bool,                      // regexp.Compile succeeds
    matches: (string, string) -> bool)             // (*Regexp).MatchString

  function KindName(k: Kind): string {
    match k
    case Int => "int" case Int8 => "int8" case Int16 => "int16" case Int32 => "int32" case Int64 => "int64"
    case Uint => "uint" case Uint8 => "uint8" case Uint16 => "uint16" case Uint32 => "uint32" case Uint64 => "uint64"
    case Float32 => "float32" case Float64 => "float64" case String => "string"
    case Array => "array" case Slice => "slice" case Map => "map" case Other => "other"
  }

  /** The predeclared type of a kind, as opposed to a type defined from it. */
  function Predeclared(k: Kind): GoType { Plain(KindName(k), k) }

  /** `reflect.TypeOf` of a non-nil interface. */
  function TypeOf(v: Value): GoType
    requires !v.Nil?
  {
    match v
    case Integer(t, _) => t
    case Floating(t, _) => t
    case Text(t, _) => t
    case Collection(t, _, _) => t
    case Opaque(t, _) => t
    case Record(id, _) => Struct(id)
    case Reference(e, _) => Pointer(e)
  }

  /** `reflect.Type.String`: a package-qualified name, not unique among struct types. */
  function TypeString(w: World, t: GoType): string {
    match t
    case Plain(name, _) => name
    case Interface(name) => name
    case Pointer(e) => "*" + TypeString(w, e)
    case Struct(id) => if id < |w.defs| then w.defs[id].name else ""
  }

  // ---------- typing ----------

  /** The value fits its own dynamic type. */
  ghost predicate WellFormed(w: World, v: Value)
    decreases v, 0
  {
    match v
    case Nil => true
    case Record(id, fs) =>
      && id < |w.defs|
      && |fs| == |w.defs[id].fields|
      && forall k :: 0 <= k < |fs| ==> HasType(w, fs[k], w.defs[id].fields[k].typ)
    case Reference(e, a) => a.Some? ==> a.value in w.heap && w.heap[a.value].typ == e
    case _ => TypeOf(v).Plain?
  }

  /** The value may be stored in a variable of static type `t`. */
  ghost predicate HasType(w: World, v: Value, t: GoType)
    decreases v, 1
  {
    && WellFormed(w, v)
    && (t.Interface? || (!v.Nil? && TypeOf(v) == t))
  }

  ghost predicate WellTypedHeap(w: World) {
    forall a :: a in w.heap ==> HasType(w, w.heap[a].content, w.heap[a].typ)
  }

  /** The type a field index path leads to, following at most one pointer before each field. */
  function TypeAfter(w: World, t: GoType, path: seq<nat>): Option<GoType>
    decreases |path|
  {
    if path == [] then Some(t)
    else
      var s := Dereferenced(t);
      if s.Struct? && s.id < |w.defs| && path[0] < |w.defs[s.id].fields|
      then TypeAfter(w, w.defs[s.id].fields[path[0]].typ, path[1..])
      else None
  }

  function Dereferenced(t: GoType): GoType { if t.Pointer? then t.elem else t }

  /** What Go's reflection promises of the fields it returns. */
  ghost predicate LawfulReflection(w: World) {
    && (forall id: nat, name: string :: id < |w.defs| && w.byName(id, name).Some? ==>
          var f := w.byName(id, name).value;
          TypeAfter(w, Struct(id), f.index) == Some(f.typ))
    && (forall id: nat, k: nat :: id < |w.defs| && k < |w.visible(id)| ==>
          TypeAfter(w, Struct(id), w.visible(id)[k].index) == Some(w.visible(id)[k].typ))
  }

  // ---------- reflect.Value ----------

  /** A `reflect.Value`: static type, content, and the two read-only flags that an
      unexported field sets (`sticky`) or that an unexported embedded field sets
      until the next field is selected (`embedded`). */
  datatype Reflected = Reflected(t: GoType, v: Value, sticky: bool, embedded: bool)

  function ValueOf(v: Value): Reflected
    requires !v.Nil?
  {
    Reflected(TypeOf(v), v, false, false)
  }

  predicate NilPointerHeld(r: Reflected) { r.t.Pointer? && r.v == Reference(r.t.elem, None) }

  /** `reflect.Indirect`; the caller handles the nil pointer. */
  function Indirect(w: World, r: Reflected): Reflected {
    if r.t.Pointer? && r.v.Reference? && r.v.target.Some? && r.v.target.value in w.heap
    then r.(t := r.t.elem, v := w.heap[r.v.target.value].content)
    else r
  }

  /** `reflect.Indirect(value).Field(index)`. */
  function SelectField(w: World, r: Reflected, index: nat): Outcome<Reflected> {
    if NilPointerHeld(r) then Panic(NilPointer)
    else
      var s := Indirect(w, r);
      if s.t.Struct? && s.t.id < |w.defs| && index < |w.defs[s.t.id].fields| && s.v.Record? && index < |s.v.fields| then
        var f := w.defs[s.t.id].fields[index];
        Ok(Reflected(f.typ, s.v.fields[index],
                     s.sticky || (!f.exported && !f.embedded),
                     !f.exported && f.embedded))
      else Panic(BadField)
  }

  /** The loop of `GetFieldValue` over an index path. */
  function Walk(w: World, r: Reflected, path: seq<nat>): Outcome<Reflected>
    decreases |path|
  {
    if path == [] then Ok(r)
    else
      var next := SelectField(w, r, path[0]);
      if next.Ok? then Walk(w, next.value, path[1..]) else next
  }

  predicate CanInterface(r: Reflected) { !r.sticky && !r.embedded }

  ghost predicate Typed(w: World, r: Reflected) { HasType(w, r.v, r.t) }
}
