/** Soundness of index paths, and when caching them by type name is invisible. */
module FieldPathProofs {
  import opened Common
  import opened GoValues
  import opened FieldCacher
  import opened FieldGetter

  // ---------- walking an index path ----------

  /** One field selection on a typed value: a nil pointer or a typed field, nothing else. */
  lemma SelectTyped(w: World, r: Reflected, index: nat)
    requires WellTypedHeap(w) && Typed(w, r) && TypeAfter(w, r.t, [index]).Some?
    ensures NilPointerHeld(r) ==> SelectField(w, r, index) == Panic(NilPointer)
    ensures !NilPointerHeld(r) ==>
      var next := SelectField(w, r, index);
      next.Ok? && Typed(w, next.value) && Some(next.value.t) == TypeAfter(w, r.t, [index])
  {
    if !NilPointerHeld(r) {
      var s := Indirect(w, r);
      if r.t.Pointer? {
        assert WellFormed(w, r.v) && TypeOf(r.v) == r.t;
        assert r.v.Reference? && r.v.target.Some?;
        assert HasType(w, w.heap[r.v.target.value].content, r.t.elem);
      }
      assert Typed(w, s) && s.t == Dereferenced(r.t);
      assert WellFormed(w, s.v) && TypeOf(s.v) == s.t;
      assert s.v.Record? && s.v.def == s.t.id;
      assert HasType(w, s.v.fields[index], w.defs[s.t.id].fields[index].typ);
    }
  }

  lemma {:induction false} TypeAfterStep(w: World, t: GoType, path: seq<nat>)
    requires path != [] && TypeAfter(w, t, path).Some?
    ensures TypeAfter(w, t, path[..1]).Some?
    ensures TypeAfter(w, TypeAfter(w, t, path[..1]).value, path[1..]) == TypeAfter(w, t, path)
  {
  }

  /** Walking a path the type admits never leaves the struct types: the walk ends
      on a value of the type the path promises, or on a nil pointer. */
  lemma {:induction false} WalkTyped(w: World, r: Reflected, path: seq<nat>)
    requires WellTypedHeap(w) && Typed(w, r) && TypeAfter(w, r.t, path).Some?
    ensures Walk(w, r, path).Ok? || Walk(w, r, path) == Panic(NilPointer)
    ensures Walk(w, r, path).Ok? ==>
      var end := Walk(w, r, path).value;
      Typed(w, end) && Some(end.t) == TypeAfter(w, r.t, path)
    decreases |path|
  {
    if path != [] {
      TypeAfterStep(w, r.t, path);
      assert path[..1] == [path[0]];
      SelectTyped(w, r, path[0]);
      if !NilPointerHeld(r) {
        WalkTyped(w, SelectField(w, r, path[0]).value, path[1..]);
      }
    }
  }

  lemma {:induction false} WalkConcat(w: World, r: Reflected, p: seq<nat>, q: seq<nat>)
    ensures Walk(w, r, p + q) ==
      if Walk(w, r, p).Ok? then Walk(w, Walk(w, r, p).value, q) else Walk(w, r, p)
    decreases |p|
  {
    if p == [] {
      assert p + q == q;
    } else {
      assert (p + q)[1..] == p[1..] + q;
      var next := SelectField(w, r, p[0]);
      if next.Ok? {
        WalkConcat(w, next.value, p[1..], q);
      }
    }
  }

  lemma {:induction false} TypeAfterConcat(w: World, t: GoType, p: seq<nat>, q: seq<nat>)
    requires TypeAfter(w, t, p).Some?
    ensures TypeAfter(w, t, p + q) == TypeAfter(w, TypeAfter(w, t, p).value, q)
    decreases |p|
  {
    if p == [] {
      assert p + q == q;
    } else {
      var s := Dereferenced(t);
      assert (p + q)[1..] == p[1..] + q;
      TypeAfterConcat(w, w.defs[s.id].fields[p[0]].typ, p[1..], q);
    }
  }

  /** The walk panics exactly when some proper prefix of the path reaches a nil pointer. */
  lemma {:induction false} NilOnTheWay(w: World, r: Reflected, path: seq<nat>)
    requires WellTypedHeap(w) && Typed(w, r) && TypeAfter(w, r.t, path).Some?
    ensures Walk(w, r, path) == Panic(NilPointer) <==>
      exists k :: 0 <= k < |path| && Walk(w, r, path[..k]).Ok? && NilPointerHeld(Walk(w, r, path[..k]).value)
    decreases |path|
  {
    if path != [] {
      assert path[..0] == [];
      TypeAfterStep(w, r.t, path);
      assert path[..1] == [path[0]];
      SelectTyped(w, r, path[0]);
      if !NilPointerHeld(r) {
        var next := SelectField(w, r, path[0]).value;
        NilOnTheWay(w, next, path[1..]);
        forall k | 0 <= k < |path| - 1
          ensures Walk(w, r, path[..k + 1]) == Walk(w, next, path[1..][..k])
        {
          assert path[..k + 1][1..] == path[1..][..k];
        }
        if exists k :: 0 <= k < |path| && Walk(w, r, path[..k]).Ok? && NilPointerHeld(Walk(w, r, path[..k]).value) {
          var k :| 0 <= k < |path| && Walk(w, r, path[..k]).Ok? && NilPointerHeld(Walk(w, r, path[..k]).value);
          assert Walk(w, r, path[..k - 1 + 1]) == Walk(w, next, path[1..][..k - 1]);
        }
      }
    }
  }

  // ---------- a path of names ----------

  lemma {:induction false} FirstTaggedIsVisible(fields: seq<StructField>, tag: string, value: string)
    requires FirstTagged(fields, tag, value).Some?
    ensures FirstTagged(fields, tag, value).value in fields
  {
    if TagValue(fields[0], tag) != value {
      FirstTaggedIsVisible(fields[1..], tag, value);
    }
  }

  lemma LookupTyped(w: World, tag: string, id: nat, name: string)
    requires LawfulReflection(w) && id < |w.defs| && StructFieldOf(w, tag, id, name).Ok?
    ensures var f := StructFieldOf(w, tag, id, name).value; TypeAfter(w, Struct(id), f.index) == Some(f.typ)
  {
    if tag != "" {
      FirstTaggedIsVisible(w.visible(id), tag, name);
      var k: nat :| k < |w.visible(id)| && w.visible(id)[k] == FirstTagged(w.visible(id), tag, name).value;
    }
  }

  /** Looking names up one at a time on the value itself, each from where the last ended. */
  function WalkNames(w: World, tag: string, r: Reflected, names: seq<string>): Outcome<Reflected>
    decreases |names|
  {
    if names == [] then Ok(r)
    else if NilPointerHeld(r) then Panic(NilPointer)
    else
      var s := Indirect(w, r);
      if !(s.t.Struct? && s.t.id < |w.defs|) then Err(NotAStruct)
      else
        match StructFieldOf(w, tag, s.t.id, names[0])
        case Err(e) => Err(e)
        case Panic(p) => Panic(p)
        case Ok(f) =>
          match Walk(w, s, f.index)
          case Ok(next) => WalkNames(w, tag, next, names[1..])
          case failed => failed
  }

  /** Selecting through a pointer and selecting from what it points to are the same,
      except for the nil pointer. */
  lemma WalkIndirect(w: World, r: Reflected, path: seq<nat>)
    requires WellTypedHeap(w) && Typed(w, r) && path != []
    requires !NilPointerHeld(r) && !Dereferenced(r.t).Pointer?
    ensures Walk(w, r, path) == Walk(w, Indirect(w, r), path)
  {
  }

  /** The empty name list aside, a field's index path is never empty. */
  ghost predicate NonEmptyIndexes(w: World) {
    && (forall id: nat, name: string :: id < |w.defs| && w.byName(id, name).Some? ==>
          w.byName(id, name).value.index != [])
    && (forall id: nat, k: nat :: id < |w.defs| && k < |w.visible(id)| ==> w.visible(id)[k].index != [])
  }

  lemma LookupNonEmpty(w: World, tag: string, id: nat, name: string)
    requires NonEmptyIndexes(w) && id < |w.defs| && StructFieldOf(w, tag, id, name).Ok?
    ensures StructFieldOf(w, tag, id, name).value.index != []
  {
    if tag != "" {
      FirstTaggedIsVisible(w.visible(id), tag, name);
      var k: nat :| k < |w.visible(id)| && w.visible(id)[k] == FirstTagged(w.visible(id), tag, name).value;
    }
  }

  /** A resolved path is one the type admits. */
  lemma {:induction false} ResolvedPathTyped(w: World, tag: string, t: GoType, names: seq<string>)
    requires LawfulReflection(w) && NonEmptyIndexes(w) && ResolveNames(w, tag, t, names).Ok?
    ensures TypeAfter(w, t, ResolveNames(w, tag, t, names).value).Some?
    decreases |names|
  {
    if names != [] {
      var s := Dereferenced(t);
      var f := StructFieldOf(w, tag, s.id, names[0]).value;
      LookupTyped(w, tag, s.id, names[0]);
      LookupNonEmpty(w, tag, s.id, names[0]);
      ResolvedPathTyped(w, tag, f.typ, names[1..]);
      assert TypeAfter(w, t, f.index) == TypeAfter(w, s, f.index);
      TypeAfterConcat(w, t, f.index, ResolveNames(w, tag, f.typ, names[1..]).value);
    }
  }

  /** Path soundness. When a path of names resolves for a type, walking the
      concatenated index path over any value of that type reaches exactly what looking
      the names up one at a time reaches; it never selects a field of a non-struct or
      one out of range, and fails only on a nil pointer. */
  lemma {:induction false} PathSound(w: World, tag: string, r: Reflected, names: seq<string>)
    requires LawfulReflection(w) && NonEmptyIndexes(w) && WellTypedHeap(w) && Typed(w, r)
    requires ResolveNames(w, tag, r.t, names).Ok?
    ensures var path := ResolveNames(w, tag, r.t, names).value;
      && Walk(w, r, path) == WalkNames(w, tag, r, names)
      && (Walk(w, r, path).Ok? || Walk(w, r, path) == Panic(NilPointer))
      && (Walk(w, r, path).Ok? ==> Typed(w, Walk(w, r, path).value))
    decreases |names|
  {
    ResolvedPathTyped(w, tag, r.t, names);
    WalkTyped(w, r, ResolveNames(w, tag, r.t, names).value);
    if names != [] {
      var s := Dereferenced(r.t);
      var f := StructFieldOf(w, tag, s.id, names[0]).value;
      var rest := ResolveNames(w, tag, f.typ, names[1..]).value;
      LookupTyped(w, tag, s.id, names[0]);
      LookupNonEmpty(w, tag, s.id, names[0]);
      assert TypeAfter(w, r.t, f.index) == Some(f.typ);
      WalkConcat(w, r, f.index, rest);
      WalkTyped(w, r, f.index);
      if !NilPointerHeld(r) {
        WalkIndirect(w, r, f.index);
        if Walk(w, r, f.index).Ok? {
          PathSound(w, tag, Walk(w, r, f.index).value, names[1..]);
        }
      } else {
        assert SelectField(w, r, f.index[0]) == Panic(NilPointer);
      }
    }
  }

  /** The same for whole field values: a well-typed object never makes `GetFieldValue`
      panic except on a nil pointer. */
  lemma FieldValueSound(w: World, tag: string, obj: Value, path: string)
    requires LawfulReflection(w) && NonEmptyIndexes(w) && WellTypedHeap(w) && WellFormed(w, obj)
    ensures FieldValue(w, tag, obj, path).Panic? ==> FieldValue(w, tag, obj, path) == Panic(NilPointer)
    ensures FieldValue(w, tag, obj, path).Ok? ==> WellFormed(w, FieldValue(w, tag, obj, path).value)
  {
    if path != "" && !obj.Nil? && PathOf(w, tag, TypeOf(obj), path).Ok? {
      PathSound(w, tag, ValueOf(obj), Split(path, '.'));
    } else if path != "" && !obj.Nil? {
      NeverPanics(w, tag, TypeOf(obj), Split(path, '.'));
    }
  }

  /** The fields an index path selects, one after the other. */
  function FieldsAlong(w: World, t: GoType, path: seq<nat>): (fields: seq<FieldDef>)
    requires TypeAfter(w, t, path).Some?
    ensures |fields| == |path|
    decreases |path|
  {
    if path == [] then []
    else
      var f := w.defs[Dereferenced(t).id].fields[path[0]];
      [f] + FieldsAlong(w, f.typ, path[1..])
  }

  /** Every field is exported, or embedded and not the last. */
  predicate Readable(fields: seq<FieldDef>) {
    forall k :: 0 <= k < |fields| ==> fields[k].exported || (fields[k].embedded && k < |fields| - 1)
  }

  lemma ReadableCons(f: FieldDef, rest: seq<FieldDef>)
    ensures Readable([f] + rest) <==> (f.exported || (f.embedded && rest != [])) && Readable(rest)
  {
    var fields := [f] + rest;
    if Readable(fields) {
      assert fields[0] == f;
      forall k | 0 <= k < |rest| ensures rest[k].exported || (rest[k].embedded && k < |rest| - 1) {
        assert fields[k + 1] == rest[k];
      }
    }
  }

  /** What the two read-only flags compute: the end of a successful walk may be handed out
      exactly when every field on the way is exported, or embedded and not the last. */
  lemma {:induction false} ReadableExactlyWhen(w: World, r: Reflected, path: seq<nat>)
    requires TypeAfter(w, r.t, path).Some? && Walk(w, r, path).Ok?
    ensures CanInterface(Walk(w, r, path).value) <==>
            !r.sticky && (path == [] ==> !r.embedded) && Readable(FieldsAlong(w, r.t, path))
    decreases |path|
  {
    if path != [] {
      var next := SelectField(w, r, path[0]).value;
      var f, rest := w.defs[Dereferenced(r.t).id].fields[path[0]], FieldsAlong(w, next.t, path[1..]);
      ReadableExactlyWhen(w, next, path[1..]);
      assert FieldsAlong(w, r.t, path) == [f] + rest;
      ReadableCons(f, rest);
    }
  }

  /** Exactly when a path that resolves is refused for its fields: no nil pointer stands in
      the way, and some field on it is neither exported nor an embedded one passed through. */
  lemma RefusedExactlyWhen(w: World, tag: string, obj: Value, path: string)
    requires LawfulReflection(w) && NonEmptyIndexes(w) && WellTypedHeap(w) && WellFormed(w, obj)
    requires path != "" && !obj.Nil? && PathOf(w, tag, TypeOf(obj), path).Ok?
    ensures var index := PathOf(w, tag, TypeOf(obj), path).value;
      && TypeAfter(w, TypeOf(obj), index).Some?
      && (FieldValue(w, tag, obj, path) == Err(CannotInterface) <==>
            Walk(w, ValueOf(obj), index) != Panic(NilPointer) && !Readable(FieldsAlong(w, TypeOf(obj), index)))
  {
    var index := PathOf(w, tag, TypeOf(obj), path).value;
    ResolvedPathTyped(w, tag, TypeOf(obj), Split(path, '.'));
    WalkTyped(w, ValueOf(obj), index);
    if Walk(w, ValueOf(obj), index).Ok? {
      ReadableExactlyWhen(w, ValueOf(obj), index);
    }
  }

  lemma {:induction false} NeverPanics(w: World, tag: string, t: GoType, names: seq<string>)
    ensures !ResolveNames(w, tag, t, names).Panic?
    decreases |names|
  {
    if names != [] {
      var s := Dereferenced(t);
      if s.Struct? && s.id < |w.defs| {
        var field := StructFieldOf(w, tag, s.id, names[0]);
        if field.Ok? {
          NeverPanics(w, tag, field.value.typ, names[1..]);
        }
      }
    }
  }

  // ---------- what a field path means ----------

  /** A path is the names of its fields with dots between them. */
  lemma DottedPath(w: World, tag: string, t: GoType, names: seq<string>)
    requires |names| >= 1 && forall k :: 0 <= k < |names| ==> '.' !in names[k]
    ensures PathOf(w, tag, t, Join(names, ".")) == ResolveNames(w, tag, t, names)
  {
    SplitJoin(names, '.');
  }

  /** Why `name` is not found in the type `u`: it is not one of a struct or a pointer to a
      struct, or no field has the name. */
  predicate FailsAt(w: World, tag: string, u: GoType, name: string, e: Error) {
    var s := if u.Pointer? then u.elem else u;
    if s.Struct? && s.id < |w.defs| then
      e == FieldNotFound && (if tag == "" then w.byName(s.id, name) else FirstTagged(w.visible(s.id), tag, name)).None?
    else e == NotAStruct
  }

  /** Where the first `k` names lead. */
  function ReachedType(w: World, tag: string, t: GoType, names: seq<string>, k: nat): Option<GoType>
    requires k <= |names|
  {
    match ResolveNames(w, tag, t, names[..k])
    case Ok(path) => TypeAfter(w, t, path)
    case _ => None
  }

  /** Exactly when a path of names does not resolve: some name on it is not found in the
      type that the names before it lead to. */
  lemma {:induction false} UnresolvedExactlyWhen(w: World, tag: string, t: GoType, names: seq<string>, e: Error)
    requires LawfulReflection(w) && NonEmptyIndexes(w)
    ensures ResolveNames(w, tag, t, names) == Err(e) <==>
      exists k :: 0 <= k < |names| && ReachedType(w, tag, t, names, k).Some? &&
                  FailsAt(w, tag, ReachedType(w, tag, t, names, k).value, names[k], e)
    decreases |names|
  {
    if names != [] {
      assert names[..0] == [] && ReachedType(w, tag, t, names, 0) == Some(t);
      var s := Dereferenced(t);
      if s.Struct? && s.id < |w.defs| && StructFieldOf(w, tag, s.id, names[0]).Ok? {
        var f := StructFieldOf(w, tag, s.id, names[0]).value;
        UnresolvedExactlyWhen(w, tag, f.typ, names[1..], e);
        forall k: nat | k < |names| - 1
          ensures ReachedType(w, tag, t, names, k + 1) == ReachedType(w, tag, f.typ, names[1..], k)
        {
          ReachedStep(w, tag, t, names, k);
        }
        ShiftWitness(w, tag, t, f.typ, names, e);
      }
    }
  }

  lemma ReachedStep(w: World, tag: string, t: GoType, names: seq<string>, k: nat)
    requires LawfulReflection(w) && NonEmptyIndexes(w) && k < |names| - 1
    requires var s := Dereferenced(t); s.Struct? && s.id < |w.defs| && StructFieldOf(w, tag, s.id, names[0]).Ok?
    ensures var f := StructFieldOf(w, tag, Dereferenced(t).id, names[0]).value;
      ReachedType(w, tag, t, names, k + 1) == ReachedType(w, tag, f.typ, names[1..], k)
  {
    var s := Dereferenced(t);
    var f := StructFieldOf(w, tag, s.id, names[0]).value;
    assert names[..k + 1][0] == names[0] && names[..k + 1][1..] == names[1..][..k];
    LookupTyped(w, tag, s.id, names[0]);
    LookupNonEmpty(w, tag, s.id, names[0]);
    assert TypeAfter(w, t, f.index) == TypeAfter(w, s, f.index);
    var rest := ResolveNames(w, tag, f.typ, names[1..][..k]);
    if rest.Ok? {
      TypeAfterConcat(w, t, f.index, rest.value);
    }
  }

  lemma ShiftWitness(w: World, tag: string, t: GoType, u: GoType, names: seq<string>, e: Error)
    requires names != [] && ReachedType(w, tag, t, names, 0) == Some(t) && !FailsAt(w, tag, t, names[0], e)
    requires forall k: nat :: k < |names| - 1 ==>
               ReachedType(w, tag, t, names, k + 1) == ReachedType(w, tag, u, names[1..], k)
    ensures (exists k :: 0 <= k < |names| && ReachedType(w, tag, t, names, k).Some? &&
                         FailsAt(w, tag, ReachedType(w, tag, t, names, k).value, names[k], e)) <==>
            (exists k :: 0 <= k < |names| - 1 && ReachedType(w, tag, u, names[1..], k).Some? &&
                         FailsAt(w, tag, ReachedType(w, tag, u, names[1..], k).value, names[1..][k], e))
  {
    if k :| 0 <= k < |names| && ReachedType(w, tag, t, names, k).Some? &&
            FailsAt(w, tag, ReachedType(w, tag, t, names, k).value, names[k], e) {
      assert names[1..][k - 1] == names[k];
      assert ReachedType(w, tag, t, names, k - 1 + 1) == ReachedType(w, tag, u, names[1..], k - 1);
    }
    if k :| 0 <= k < |names| - 1 && ReachedType(w, tag, u, names[1..], k).Some? &&
            FailsAt(w, tag, ReachedType(w, tag, u, names[1..], k).value, names[1..][k], e) {
      assert names[k + 1] == names[1..][k] && ReachedType(w, tag, t, names, k + 1).Some?;
    }
  }

  /** The getter, for every object and path: the object itself for the empty path; otherwise
      what looking the names up one at a time reaches, unless a field on the way may not be
      read. */
  lemma FieldValueMeaning(w: World, tag: string, obj: Value, path: string)
    requires LawfulReflection(w) && NonEmptyIndexes(w) && WellTypedHeap(w) && WellFormed(w, obj)
    ensures path == "" ==> FieldValue(w, tag, obj, path) == Ok(obj)
    ensures path != "" && obj == Nil ==> FieldValue(w, tag, obj, path) == Err(NilObject)
    ensures path != "" && obj != Nil ==>
      match PathOf(w, tag, TypeOf(obj), path)
      case Err(e) => FieldValue(w, tag, obj, path) == Err(e)
      case Panic(_) => false
      case Ok(index) =>
        && TypeAfter(w, TypeOf(obj), index).Some?
        && match WalkNames(w, tag, ValueOf(obj), Split(path, '.'))
           case Ok(r) => FieldValue(w, tag, obj, path) ==
                         (if Readable(FieldsAlong(w, TypeOf(obj), index)) then Ok(r.v) else Err(CannotInterface))
           case Panic(p) => FieldValue(w, tag, obj, path) == Panic(p)
           case Err(_) => false
  {
    if path != "" && obj != Nil {
      NeverPanics(w, tag, TypeOf(obj), Split(path, '.'));
      if PathOf(w, tag, TypeOf(obj), path).Ok? {
        PathSound(w, tag, ValueOf(obj), Split(path, '.'));
        RefusedExactlyWhen(w, tag, obj, path);
      }
    }
  }

  /** One name on a struct: the content of the field it stands for, if that is exported. */
  lemma FieldOfRecord(w: World, tag: string, id: nat, fields: seq<Value>, name: string, k: nat)
    requires id < |w.defs| && |fields| == |w.defs[id].fields| && k < |fields|
    requires name != "" && '.' !in name
    requires StructFieldOf(w, tag, id, name).Ok? && StructFieldOf(w, tag, id, name).value.index == [k]
    ensures FieldValue(w, tag, Record(id, fields), name) ==
            if w.defs[id].fields[k].exported then Ok(fields[k]) else Err(CannotInterface)
  {
    OneName(w, tag, Struct(id), id, name, k);
    OneStep(w, ValueOf(Record(id, fields)), k);
  }

  /** And the same through a pointer, which must not be nil. */
  lemma FieldThroughPointer(w: World, tag: string, id: nat, address: nat, name: string, k: nat)
    requires id < |w.defs| && address in w.heap && w.heap[address].content.Record?
    requires var fields := w.heap[address].content.fields;
      w.heap[address].content.def == id && |fields| == |w.defs[id].fields| && k < |fields|
    requires name != "" && '.' !in name
    requires StructFieldOf(w, tag, id, name).Ok? && StructFieldOf(w, tag, id, name).value.index == [k]
    ensures FieldValue(w, tag, Reference(Struct(id), None), name) == Panic(NilPointer)
    ensures FieldValue(w, tag, Reference(Struct(id), Some(address)), name) ==
            if w.defs[id].fields[k].exported then Ok(w.heap[address].content.fields[k]) else Err(CannotInterface)
  {
    OneName(w, tag, Pointer(Struct(id)), id, name, k);
    OneStep(w, ValueOf(Reference(Struct(id), None)), k);
    OneStep(w, ValueOf(Reference(Struct(id), Some(address))), k);
  }

  lemma OneStep(w: World, r: Reflected, k: nat)
    ensures Walk(w, r, [k]) == SelectField(w, r, k)
  {
    assert [k][0] == k && [k][1..] == [];
    assert SelectField(w, r, k).Ok? ==> Walk(w, SelectField(w, r, k).value, []) == SelectField(w, r, k);
  }

  lemma OneName(w: World, tag: string, t: GoType, id: nat, name: string, k: nat)
    requires id < |w.defs| && Dereferenced(t) == Struct(id) && '.' !in name
    requires StructFieldOf(w, tag, id, name).Ok? && StructFieldOf(w, tag, id, name).value.index == [k]
    ensures PathOf(w, tag, t, name) == Ok([k])
  {
    SplitWhole(name, '.');
    var f := StructFieldOf(w, tag, id, name).value;
    assert [name][1..] == [] && ResolveNames(w, tag, f.typ, []) == Ok([]);
    assert f.index + [] == [k];
  }

  // ---------- the cache ----------

  /** Every cached path is the one a fresh resolution gives, for every type with that name. */
  ghost predicate Consistent(w: World, tag: string, c: Cached) {
    forall t, path :: t in w.types && path != "" && Lookup(c, TypeString(w, t), path).Some? ==>
      PathOf(w, tag, t, path) == Ok(Lookup(c, TypeString(w, t), path).value)
  }

  /** Types the cache cannot tell apart resolve every path alike. */
  ghost predicate KeysDetermine(w: World, tag: string) {
    forall t1, t2, path ::
      (t1 in w.types && t2 in w.types && path != "" && TypeString(w, t1) == TypeString(w, t2) &&
       PathOf(w, tag, t1, path).Ok?) ==>
      PathOf(w, tag, t2, path) == PathOf(w, tag, t1, path)
  }

  type Request = (GoType, string)

  /** The paths a run of requests is answered with, starting from cache content `c`. */
  function Answers(w: World, tag: string, c: Cached, requests: seq<Request>): (answers: seq<Outcome<seq<nat>>>)
    ensures |answers| == |requests|
    decreases |requests|
  {
    if requests == [] then []
    else
      var (t, path) := requests[0];
      [CachedPath(w, tag, c, t, path)] + Answers(w, tag, AfterPath(w, tag, c, t, path), requests[1..])
  }

  function FreshAnswers(w: World, tag: string, requests: seq<Request>): (answers: seq<Outcome<seq<nat>>>)
    ensures |answers| == |requests|
  {
    if requests == [] then []
    else [PathOf(w, tag, requests[0].0, requests[0].1)] + FreshAnswers(w, tag, requests[1..])
  }

  ghost predicate FromTheProgram(w: World, requests: seq<Request>) {
    forall q :: q in requests ==> q.0 in w.types && q.1 != ""
  }

  /** A consistent cache answers as a fresh resolution does. */
  lemma ConsistentHit(w: World, tag: string, c: Cached, t: GoType, path: string)
    requires Consistent(w, tag, c) && t in w.types && path != ""
    ensures CachedPath(w, tag, c, t, path) == PathOf(w, tag, t, path)
  {
  }

  /** And stays consistent by remembering what it is asked. */
  lemma ConsistentAfter(w: World, tag: string, c: Cached, t: GoType, path: string)
    requires KeysDetermine(w, tag) && Consistent(w, tag, c) && t in w.types && path != ""
    ensures Consistent(w, tag, AfterPath(w, tag, c, t, path))
  {
    var d := AfterPath(w, tag, c, t, path);
    forall u, q | u in w.types && q != "" && Lookup(d, TypeString(w, u), q).Some?
      ensures PathOf(w, tag, u, q) == Ok(Lookup(d, TypeString(w, u), q).value)
    {
      if TypeString(w, u) == TypeString(w, t) && q == path && Lookup(c, TypeString(w, t), path).None? {
        assert PathOf(w, tag, t, path).Ok?;
      } else {
        assert Lookup(d, TypeString(w, u), q) == Lookup(c, TypeString(w, u), q);
      }
    }
  }

  lemma {:induction false} ConsistentAnswers(w: World, tag: string, c: Cached, requests: seq<Request>)
    requires KeysDetermine(w, tag) && Consistent(w, tag, c) && FromTheProgram(w, requests)
    ensures Answers(w, tag, c, requests) == FreshAnswers(w, tag, requests)
    decreases |requests|
  {
    if requests != [] {
      var (t, path) := requests[0];
      assert requests[0] in requests;
      ConsistentHit(w, tag, c, t, path);
      ConsistentAfter(w, tag, c, t, path);
      ConsistentAnswers(w, tag, AfterPath(w, tag, c, t, path), requests[1..]);
    }
  }

  /** Two types with one name that resolve a path differently: asking for the first
      and then for the second gets the second a wrong path. */
  lemma Collision(w: World, tag: string, t1: GoType, t2: GoType, path: string)
    requires TypeString(w, t1) == TypeString(w, t2) && PathOf(w, tag, t1, path).Ok?
    requires PathOf(w, tag, t2, path) != PathOf(w, tag, t1, path)
    ensures Answers(w, tag, None, [(t1, path), (t2, path)]) != FreshAnswers(w, tag, [(t1, path), (t2, path)])
  {
    var requests: seq<Request> := [(t1, path), (t2, path)];
    assert requests[1..] == [(t2, path)] && requests[1..][1..] == [];
    var c := AfterPath(w, tag, None, t1, path);
    assert Lookup(c, TypeString(w, t2), path) == Some(PathOf(w, tag, t1, path).value);
    assert Answers(w, tag, None, requests)[1] == PathOf(w, tag, t1, path);
    assert FreshAnswers(w, tag, requests)[1] == PathOf(w, tag, t2, path);
  }

  /** Exactly when caching is invisible: every run of requests from an empty cache is
      answered as if nothing were cached, if and only if types of the same name
      resolve every path alike. */
  lemma CacheInvisibleExactlyWhen(w: World, tag: string)
    ensures KeysDetermine(w, tag) <==>
      forall requests :: FromTheProgram(w, requests) ==>
        Answers(w, tag, None, requests) == FreshAnswers(w, tag, requests)
  {
    if KeysDetermine(w, tag) {
      forall requests | FromTheProgram(w, requests)
        ensures Answers(w, tag, None, requests) == FreshAnswers(w, tag, requests)
      {
        ConsistentAnswers(w, tag, None, requests);
      }
    } else {
      var t1, t2, path :| t1 in w.types && t2 in w.types && path != "" && TypeString(w, t1) == TypeString(w, t2) &&
        PathOf(w, tag, t1, path).Ok? && PathOf(w, tag, t2, path) != PathOf(w, tag, t1, path);
      Collision(w, tag, t1, t2, path);
      assert FromTheProgram(w, [(t1, path), (t2, path)]);
    }
  }

  /** In particular it is invisible when distinct types of the program print distinct names. */
  lemma DistinctNamesSuffice(w: World, tag: string)
    requires forall t1, t2 :: t1 in w.types && t2 in w.types && TypeString(w, t1) == TypeString(w, t2) ==> t1 == t2
    ensures KeysDetermine(w, tag)
  {
  }

  // ---------- a collision ----------

  /** Two struct types that both print as "geo.Point": the first holds a Y, the second an
      X and then a Y. */
  function TwoPoints(): World {
    var field := FieldDef(Predeclared(Int), true, false);
    World({Struct(0), Struct(1)}, [StructDef("geo.Point", [field]), StructDef("geo.Point", [field, field])],
          (id: nat, n: string) =>
            if id < 2 && n == "Y" then Some(StructField(Position(id), Predeclared(Int), map[])) else None,
          (id: nat) => [], map[], i => Finite(i as real), _ => 0,
          (a, b) => Ok(false), (a, b) => false, _ => false, (a, b) => false)
  }

  function Position(id: nat): seq<nat> { [id] }

  lemma YResolves(id: nat)
    requires id < 2
    ensures PathOf(TwoPoints(), "", Struct(id), "Y") == Ok(Position(id))
    ensures TypeAfter(TwoPoints(), Struct(id), Position(id)) == Some(Predeclared(Int))
  {
    var w := TwoPoints();
    assert "Y"[1..] == "" && ['Y'] + "" == "Y" && [""][1..] == [];
    assert Split("Y", '.') == ["Y"] && ["Y"][1..] == [];
    assert StructFieldOf(w, "", id, "Y") == Ok(StructField(Position(id), Predeclared(Int), map[]));
    assert ResolveNames(w, "", Predeclared(Int), []) == Ok([]);
    assert Position(id) + [] == Position(id) && Position(id)[1..] == [];
  }

  lemma TwoPointsLawful()
    ensures LawfulReflection(TwoPoints())
  {
    YResolves(0);
    YResolves(1);
  }

  lemma YRemembered()
    ensures var cache := AfterPath(TwoPoints(), "", None, Struct(0), "Y");
      CachedPath(TwoPoints(), "", cache, Struct(1), "Y") == Ok(Position(0))
  {
    YResolves(0);
    var w := TwoPoints();
    assert TypeString(w, Struct(0)) == TypeString(w, Struct(1)) == "geo.Point";
    assert AfterPath(w, "", None, Struct(0), "Y") == Stored(Touched(None, "geo.Point"), "geo.Point", "Y", Position(0));
  }

  lemma PointFields(id: nat, fields: seq<Value>, k: nat)
    requires k <= id < 2 && k < |fields|
    ensures Walk(TwoPoints(), ValueOf(Record(id, fields)), Position(k)) ==
            Ok(Reflected(Predeclared(Int), fields[k], false, false))
  {
    assert Position(k)[1..] == [];
  }

  /** After the first type's Y was asked for, asking for the second type's Y returns its X. */
  lemma WrongFieldExample(x: Value, y: Value)
    ensures var w, point := TwoPoints(), Record(1, [x, y]);
      var cache := AfterPath(w, "", None, Struct(0), "Y");
      && LawfulReflection(w)
      && FieldValue(w, "", point, "Y") == Ok(y)
      && ValueAt(w, point, CachedPath(w, "", cache, Struct(1), "Y")) == Ok(x)
  {
    var w, point := TwoPoints(), Record(1, [x, y]);
    YResolves(1);
    YRemembered();
    TwoPointsLawful();
    PointFields(1, [x, y], 0);
    PointFields(1, [x, y], 1);
  }
}
