/** `pkg/filter/field_getter.go`: from a dotted field path to an index path, and
    from the index path to the field's value. */
module FieldGetter {
  import opened Common
  import opened GoValues
  import opened FieldCacher

  // ---------- one name ----------

  function TagValue(f: StructField, tag: string): string {
    if tag in f.tags then f.tags[tag] else ""
  }

  /** The first field carrying the wanted tag value. */
  function FirstTagged(fields: seq<StructField>, tag: string, value: string): Option<StructField> {
    if fields == [] then None
    else if TagValue(fields[0], tag) == value then Some(fields[0])
    else FirstTagged(fields[1..], tag, value)
  }

  /** What `Tag.Get` returns for the tag is `value`; an absent tag reads as empty. */
  predicate Carries(f: StructField, tag: string, value: string) {
    if value == "" then tag !in f.tags || f.tags[tag] == "" else tag in f.tags && f.tags[tag] == value
  }

  /** `f` is the first of the fields that carries the value; None when no field does. */
  ghost predicate IsFirstCarrying(fields: seq<StructField>, tag: string, value: string, f: Option<StructField>) {
    match f
    case None => forall k :: 0 <= k < |fields| ==> !Carries(fields[k], tag, value)
    case Some(g) => exists k :: 0 <= k < |fields| && fields[k] == g && Carries(g, tag, value) &&
                      forall j :: 0 <= j < k ==> !Carries(fields[j], tag, value)
  }

  /** The field found carries the wanted value and no earlier one does; none is found exactly
      when no field carries it. */
  lemma {:induction false} FirstTaggedMeaning(fields: seq<StructField>, tag: string, value: string)
    ensures IsFirstCarrying(fields, tag, value, FirstTagged(fields, tag, value))
  {
    if fields != [] && TagValue(fields[0], tag) != value {
      var rest, found := fields[1..], FirstTagged(fields, tag, value);
      FirstTaggedMeaning(rest, tag, value);
      if found.None? {
        forall k | 0 <= k < |fields| ensures !Carries(fields[k], tag, value) {
          assert k > 0 ==> fields[k] == rest[k - 1];
        }
      } else {
        var k :| 0 <= k < |rest| && rest[k] == found.value && Carries(found.value, tag, value) &&
                 forall j :: 0 <= j < k ==> !Carries(rest[j], tag, value);
        assert fields[k + 1] == found.value;
        forall j | 0 <= j < k + 1 ensures !Carries(fields[j], tag, value) {
          assert j > 0 ==> fields[j] == rest[j - 1];
        }
      }
    } else if fields != [] {
      assert fields[0] == FirstTagged(fields, tag, value).value;
    }
  }

  function StructFieldOf(w: World, tag: string, id: nat, name: string): Outcome<StructField> {
    var f := if tag == "" then w.byName(id, name) else FirstTagged(w.visible(id), tag, name);
    if f.Some? then Ok(f.value) else Err(FieldNotFound)
  }

  /** A name stands for the Go field of that name without a tag, and with one for the first
      visible field that carries the name as its value; otherwise the field is not found. */
  lemma StructFieldMeaning(w: World, tag: string, id: nat, name: string)
    ensures var field := StructFieldOf(w, tag, id, name);
      && (field.Ok? || field == Err(FieldNotFound))
      && (tag == "" ==> w.byName(id, name) == if field.Ok? then Some(field.value) else None)
      && (tag != "" ==> IsFirstCarrying(w.visible(id), tag, name, if field.Ok? then Some(field.value) else None))
  {
    FirstTaggedMeaning(w.visible(id), tag, name);
  }

  // ---------- a path of names ----------

  /** The index path of a path of names, read off the static types alone. */
  function ResolveNames(w: World, tag: string, t: GoType, names: seq<string>): Outcome<seq<nat>>
    decreases |names|
  {
    if names == [] then Ok([])
    else
      var s := Dereferenced(t);
      if !(s.Struct? && s.id < |w.defs|) then Err(NotAStruct)
      else
        match StructFieldOf(w, tag, s.id, names[0])
        case Err(e) => Err(e)
        case Panic(p) => Panic(p)
        case Ok(f) =>
          match ResolveNames(w, tag, f.typ, names[1..])
          case Ok(rest) => Ok(f.index + rest)
          case failed => failed
  }

  function PathOf(w: World, tag: string, t: GoType, path: string): Outcome<seq<nat>> {
    ResolveNames(w, tag, t, Split(path, '.'))
  }

  /** The value behind an already resolved path (the second half of `GetFieldValue`). */
  function ValueAt(w: World, obj: Value, resolved: Outcome<seq<nat>>): Outcome<Value>
    requires !obj.Nil?
  {
    match resolved
    case Err(e) => Err(e)
    case Panic(p) => Panic(p)
    case Ok(index) =>
      match Walk(w, ValueOf(obj), index)
      case Err(e) => Err(e)
      case Panic(p) => Panic(p)
      case Ok(r) => if CanInterface(r) then Ok(r.v) else Err(CannotInterface)
  }

  /** The stateless meaning of `GetFieldValue`: resolve afresh, then walk. */
  function FieldValue(w: World, tag: string, obj: Value, path: string): Outcome<Value> {
    if path == "" then Ok(obj)
    else if obj.Nil? then Err(NilObject)
    else ValueAt(w, obj, PathOf(w, tag, TypeOf(obj), path))
  }

  // ---------- the cache ----------

  /** The path `GetFieldValue` uses when its cache holds `c`. */
  function CachedPath(w: World, tag: string, c: Cached, t: GoType, path: string): Outcome<seq<nat>> {
    var hit := Lookup(c, TypeString(w, t), path);
    if hit.Some? then Ok(hit.value) else PathOf(w, tag, t, path)
  }

  /** What the cache holds after a path was asked for: paths that resolve are kept. */
  function AfterPath(w: World, tag: string, c: Cached, t: GoType, path: string): Cached {
    var key := TypeString(w, t);
    if Lookup(c, key, path).Some? then Touched(c, key)
    else match PathOf(w, tag, t, path)
      case Ok(index) => Stored(Touched(c, key), key, path, index)
      case _ => Touched(c, key)
  }

  /** What `GetFieldValue` returns when its cache holds `c`. */
  function CachedValue(w: World, tag: string, c: Cached, obj: Value, path: string): Outcome<Value> {
    if path == "" then Ok(obj)
    else if obj.Nil? then Err(NilObject)
    else ValueAt(w, obj, CachedPath(w, tag, c, TypeOf(obj), path))
  }

  function AfterValue(w: World, tag: string, c: Cached, obj: Value, path: string): Cached {
    if path == "" || obj.Nil? then c else AfterPath(w, tag, c, TypeOf(obj), path)
  }

  class Getter {
    const fieldTag: string
    const cache: FieldCache

    constructor (fieldTag: string)
      ensures this.fieldTag == fieldTag && fresh(cache) && cache.cache == None
    {
      this.fieldTag := fieldTag;
      cache := new FieldCache();
    }

    method LookupFieldByTag(w: World, id: nat, value: string) returns (found: Option<StructField>)
      ensures found == FirstTagged(w.visible(id), fieldTag, value)
      ensures IsFirstCarrying(w.visible(id), fieldTag, value, found)
    {
      FirstTaggedMeaning(w.visible(id), fieldTag, value);
      var fields := w.visible(id);
      for k := 0 to |fields|
        invariant FirstTagged(fields, fieldTag, value) == FirstTagged(fields[k..], fieldTag, value)
      {
        if TagValue(fields[k], fieldTag) == value {
          return Some(fields[k]);
        }
      }
      found := None;
    }

    method GetStructField(w: World, id: nat, name: string) returns (field: Outcome<StructField>)
      ensures field == StructFieldOf(w, fieldTag, id, name)
    {
      var found;
      if fieldTag == "" {
        found := w.byName(id, name);
      } else {
        found := LookupFieldByTag(w, id, name);
      }
      field := if found.Some? then Ok(found.value) else Err(FieldNotFound);
    }

    method GetFieldPath(w: World, root: GoType, names: seq<string>) returns (r: Outcome<seq<nat>>)
      ensures r == ResolveNames(w, fieldTag, root, names)
    {
      var fieldPath: seq<nat> := [];
      var fieldNames, t := names, root;
      ghost var whole := ResolveNames(w, fieldTag, root, names);
      assert whole.Ok? ==> [] + whole.value == whole.value;
      while |fieldNames| > 0
        invariant ResolveNames(w, fieldTag, root, names) ==
          match ResolveNames(w, fieldTag, t, fieldNames)
          case Ok(rest) => Ok(fieldPath + rest)
          case failed => failed
      {
        if t.Pointer? {
          t := t.elem;
        }
        if !(t.Struct? && t.id < |w.defs|) {
          return Err(NotAStruct);
        }
        var field := GetStructField(w, t.id, fieldNames[0]);
        if !field.Ok? {
          return Err(field.error);
        }
        ghost var rest := ResolveNames(w, fieldTag, field.value.typ, fieldNames[1..]);
        assert rest.Ok? ==>
          fieldPath + (field.value.index + rest.value) == (fieldPath + field.value.index) + rest.value;
        fieldPath := fieldPath + field.value.index;
        fieldNames := fieldNames[1..];
        t := field.value.typ;
      }
      assert fieldPath + [] == fieldPath;
      r := Ok(fieldPath);
    }

    /** Exactly what the cache makes of the call, and of the cache the call, whatever the
        cache holds. */
    method GetFieldValue(w: World, obj: Value, path: string) returns (r: Outcome<Value>)
      modifies cache
      ensures r == CachedValue(w, fieldTag, old(cache.cache), obj, path)
      ensures cache.cache == AfterValue(w, fieldTag, old(cache.cache), obj, path)
    {
      if path == "" {
        return Ok(obj);
      }
      if obj.Nil? {
        return Err(NilObject);
      }
      var t := TypeOf(obj);
      var hit := cache.Get(w, t, path);
      var rPath;
      if hit.Some? {
        rPath := hit.value;
      } else {
        var resolved := GetFieldPath(w, t, Split(path, '.'));
        if !resolved.Ok? {
          return if resolved.Err? then Err(resolved.error) else Panic(resolved.fault);
        }
        rPath := resolved.value;
        cache.Set(w, t, path, rPath);
      }
      r := ReadPath(w, obj, rPath);
    }

    /** The walk over the value, one field index at a time. */
    method ReadPath(w: World, obj: Value, rPath: seq<nat>) returns (r: Outcome<Value>)
      requires !obj.Nil?
      ensures r == ValueAt(w, obj, Ok(rPath))
    {
      var value := ValueOf(obj);
      for k := 0 to |rPath|
        invariant Walk(w, ValueOf(obj), rPath) == Walk(w, value, rPath[k..])
      {
        var next := SelectField(w, value, rPath[k]);
        if !next.Ok? {
          return Panic(next.fault);
        }
        value := next.value;
      }
      if !CanInterface(value) {
        return Err(CannotInterface);
      }
      r := Ok(value.v);
    }
  }
}
