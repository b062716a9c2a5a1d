/** `pkg/filter/field_cacher.go`: index paths cached by type name and field path. */
module FieldCacher {
  import opened Common
  import opened GoValues

  type PathByField = map<string, seq<nat>>
  type FieldByType = map<string, PathByField>

  /** The content of a cache; None is the nil map of a new `fieldCache`. */
  type Cached = Option<FieldByType>

  /** What a cache knows. */
  function Lookup(c: Cached, key: string, path: string): Option<seq<nat>> {
    if c.Some? && key in c.value && path in c.value[key] then Some(c.value[key][path]) else None
  }

  /** The cache once both maps for `key` exist. */
  function Touched(c: Cached, key: string): (d: Cached)
    ensures d.Some? && key in d.value
    ensures forall k, p :: Lookup(d, k, p) == Lookup(c, k, p)
  {
    var outer := if c.Some? then c.value else map[];
    Some(if key in outer then outer else outer[key := map[]])
  }

  /** The cache once `index` is stored. */
  function Stored(c: Cached, key: string, path: string, index: seq<nat>): (d: Cached)
    ensures forall k, p :: Lookup(d, k, p) == if k == key && p == path then Some(index) else Lookup(c, k, p)
  {
    var outer := Touched(c, key).value;
    assert forall k, p :: Lookup(Some(outer), k, p) == Lookup(c, k, p);
    Some(outer[key := outer[key][path := index]])
  }

  class FieldCache {
    var cache: Cached

    constructor ()
      ensures cache == None
    {
      cache := None;
    }

    /** Creates whichever of the two maps is missing. */
    method GetFieldsMap(key: string) returns (fields: PathByField)
      modifies this
      ensures cache == Touched(old(cache), key) && cache.value[key] == fields
    {
      if cache == None {
        cache := Some(map[]);
      }
      if key !in cache.value {
        cache := Some(cache.value[key := map[]]);
      }
      fields := cache.value[key];
    }

    method Get(w: World, t: GoType, path: string) returns (found: Option<seq<nat>>)
      modifies this
      ensures found == Lookup(old(cache), TypeString(w, t), path)
      ensures cache == Touched(old(cache), TypeString(w, t))
    {
      var fields := GetFieldsMap(TypeString(w, t));
      assert Lookup(cache, TypeString(w, t), path) == Lookup(old(cache), TypeString(w, t), path);
      found := if path in fields then Some(fields[path]) else None;
    }

    method Set(w: World, t: GoType, path: string, index: seq<nat>)
      modifies this
      ensures cache == Stored(old(cache), TypeString(w, t), path, index)
    {
      var key := TypeString(w, t);
      var fields := GetFieldsMap(key);
      cache := Some(cache.value[key := fields[path := index]]);
    }
  }
}
