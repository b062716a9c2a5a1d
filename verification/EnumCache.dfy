/** `pkg/enumcache/enumcache.go`: the two-way map between enumeration ids and names. */
module EnumCache {
  import opened Common
  import opened EnumBitmap

  type Pair = (Word, string)

  /** The two maps as one value. */
  datatype Maps = Maps(id: map<string, Word>, name: map<Word, string>)

  const Empty := Maps(map[], map[])

  function WithPair(m: Maps, p: Pair): Maps { Maps(m.id[p.1 := p.0], m.name[p.0 := p.1]) }

  /** The maps after setting the pairs one after the other. */
  function WithPairs(m: Maps, pairs: seq<Pair>): Maps {
    if pairs == [] then m else WithPair(WithPairs(m, pairs[..|pairs| - 1]), pairs[|pairs| - 1])
  }

  /** `pairs` lists each member of `items` once. */
  ghost predicate Lists(pairs: seq<Pair>, items: set<Pair>) {
    && (forall p :: p in items <==> p in pairs)
    && (forall i, j :: 0 <= i < j < |pairs| ==> pairs[i] != pairs[j])
  }

  lemma ListsOneMore(pairs: seq<Pair>, items: set<Pair>, p: Pair)
    requires Lists(pairs, items) && p !in items
    ensures Lists(pairs + [p], items + {p})
  {
  }

  function ItemsByName(enum: map<string, Word>): set<Pair> { set x | x in enum :: (enum[x], x) }
  function ItemsByID(enum: map<Word, string>): set<Pair> { set w | w in enum :: (w, enum[w]) }

  class EnumCache {
    var id: map<string, Word>
    var name: map<Word, string>

    function Content(): Maps
      reads this
    {
      Maps(id, name)
    }

    constructor ()
      ensures Content() == Empty
    {
      id, name := map[], map[];
    }

    method Set(i: Word, n: string)
      modifies this
      ensures Content() == WithPair(old(Content()), (i, n))
    {
      name := name[i := n];
      id := id[n := i];
    }

    /** Go visits the entries in any order; `pairs` is the order taken. */
    method SetAllIDByName(enum: map<string, Word>) returns (ghost pairs: seq<Pair>)
      modifies this
      ensures Lists(pairs, ItemsByName(enum)) && Content() == WithPairs(old(Content()), pairs)
    {
      pairs := [];
      ghost var seen: set<Pair> := {};
      var rest := enum.Keys;
      while rest != {}
        invariant rest <= enum.Keys && Content() == WithPairs(old(Content()), pairs)
        invariant Lists(pairs, seen) && forall p :: p in seen <==> p.1 in enum && p.1 !in rest && enum[p.1] == p.0
      {
        var n :| n in rest;
        name := name[enum[n] := n];
        id := id[n := enum[n]];
        ListsOneMore(pairs, seen, (enum[n], n));
        rest := rest - {n};
        assert (pairs + [(enum[n], n)])[..|pairs|] == pairs;
        seen := seen + {(enum[n], n)};
        pairs := pairs + [(enum[n], n)];
      }
      assert seen == ItemsByName(enum);
    }

    method SetAllNameByID(enum: map<Word, string>) returns (ghost pairs: seq<Pair>)
      modifies this
      ensures Lists(pairs, ItemsByID(enum)) && Content() == WithPairs(old(Content()), pairs)
    {
      pairs := [];
      ghost var seen: set<Pair> := {};
      var rest := enum.Keys;
      while rest != {}
        invariant rest <= enum.Keys && Content() == WithPairs(old(Content()), pairs)
        invariant Lists(pairs, seen) && forall p :: p in seen <==> p.0 in enum && p.0 !in rest && enum[p.0] == p.1
      {
        var i :| i in rest;
        name := name[i := enum[i]];
        id := id[enum[i] := i];
        ListsOneMore(pairs, seen, (i, enum[i]));
        rest := rest - {i};
        assert (pairs + [(i, enum[i])])[..|pairs|] == pairs;
        seen := seen + {(i, enum[i])};
        pairs := pairs + [(i, enum[i])];
      }
      assert seen == ItemsByID(enum);
    }

    method DecodeBinaryMap(v: Word) returns (s: seq<string>, errBits: seq<nat>)
      ensures s == Names(name, v, MaxBit) && errBits == UnknownBits(name, v, MaxBit)
    {
      s, errBits := BitMapToStrings(name, v);
    }

    method EncodeBinaryMap(s: seq<string>) returns (v: Word, errStrings: seq<string>)
      ensures v == Bits(id, s) && errStrings == UnknownNames(id, s)
    {
      v, errStrings := StringsToBitMap(id, s);
    }
  }

  // ---------- what every history keeps ----------

  /** Every stored name is a key of the id map and every stored id a key of the name map. */
  ghost predicate Linked(m: Maps) {
    && (forall w :: w in m.name ==> m.name[w] in m.id)
    && (forall x :: x in m.id ==> m.id[x] in m.name)
  }

  lemma {:induction false} HistoryLinked(m: Maps, pairs: seq<Pair>)
    requires Linked(m)
    ensures Linked(WithPairs(m, pairs))
  {
    if pairs != [] {
      HistoryLinked(m, pairs[..|pairs| - 1]);
    }
  }

  /** The pair contradicts nothing that is stored. */
  predicate Agrees(m: Maps, p: Pair) {
    (p.0 in m.name ==> m.name[p.0] == p.1) && (p.1 in m.id ==> m.id[p.1] == p.0)
  }

  /** Setting one pair keeps the maps mutual inverses exactly when it contradicts nothing. */
  lemma SetKeepsInverseExactlyWhen(m: Maps, p: Pair)
    requires Inverse(m.name, m.id)
    ensures var n := WithPair(m, p); Inverse(n.name, n.id) <==> Agrees(m, p)
  {
    var n := WithPair(m, p);
    if !Agrees(m, p) && p.0 in m.name && m.name[p.0] != p.1 {
      assert m.name[p.0] in n.id && n.id[m.name[p.0]] == p.0;
    } else if !Agrees(m, p) {
      assert m.id[p.1] in n.name && n.name[m.id[p.1]] == p.1;
    }
  }

  /** No two of the pairs share an id or a name without being the same pair. */
  ghost predicate OneToOne(items: set<Pair>) {
    forall p, q :: p in items && q in items && (p.0 == q.0 || p.1 == q.1) ==> p == q
  }

  function Elements(pairs: seq<Pair>): set<Pair> { set p | p in pairs }

  /** The stored pairs are those set, plus the old ones whose key was not set again. */
  ghost predicate Holds(m: Maps, items: set<Pair>, n: Maps) {
    && (forall p :: p in items ==> p.0 in n.name && n.name[p.0] == p.1 && p.1 in n.id && n.id[p.1] == p.0)
    && (forall w :: !IDSet(items, w) ==> (w in n.name <==> w in m.name) && (w in m.name ==> n.name[w] == m.name[w]))
    && (forall x :: !NameSet(items, x) ==> (x in n.id <==> x in m.id) && (x in m.id ==> n.id[x] == m.id[x]))
  }

  ghost predicate IDSet(items: set<Pair>, w: Word) { exists p :: p in items && p.0 == w }
  ghost predicate NameSet(items: set<Pair>, x: string) { exists p :: p in items && p.1 == x }

  lemma HoldsOneMore(m: Maps, items: set<Pair>, n: Maps, p: Pair)
    requires Holds(m, items, n) && OneToOne(items + {p})
    ensures Holds(m, items + {p}, WithPair(n, p))
  {
    var all, after := items + {p}, WithPair(n, p);
    assert p in all;
    forall q | q in all
      ensures q.0 in after.name && after.name[q.0] == q.1 && q.1 in after.id && after.id[q.1] == q.0
    {
      assert q == p || (q.0 != p.0 && q.1 != p.1);
    }
    forall w | !IDSet(all, w)
      ensures (w in after.name <==> w in m.name) && (w in m.name ==> after.name[w] == m.name[w])
    {
      assert !IDSet(items, w) && w != p.0;
    }
    forall x | !NameSet(all, x)
      ensures (x in after.id <==> x in m.id) && (x in m.id ==> after.id[x] == m.id[x])
    {
      assert !NameSet(items, x) && x != p.1;
    }
  }

  lemma {:induction false} OneToOneHolds(m: Maps, pairs: seq<Pair>)
    requires OneToOne(Elements(pairs))
    ensures Holds(m, Elements(pairs), WithPairs(m, pairs))
  {
    if pairs != [] {
      var init, last := pairs[..|pairs| - 1], pairs[|pairs| - 1];
      assert pairs == init + [last];
      assert Elements(pairs) == Elements(init) + {last};
      OneToOneHolds(m, init);
      HoldsOneMore(m, Elements(init), WithPairs(m, init), last);
    }
  }

  lemma HoldsDetermines(m: Maps, items: set<Pair>, a: Maps, b: Maps)
    requires Holds(m, items, a) && Holds(m, items, b)
    ensures a == b
  {
  }

  /** A history without conflicts leaves the maps mutual inverses of each other. */
  lemma ConflictFreeInverse(pairs: seq<Pair>)
    requires OneToOne(Elements(pairs))
    ensures var m := WithPairs(Empty, pairs); Inverse(m.name, m.id)
  {
    var m, items := WithPairs(Empty, pairs), Elements(pairs);
    OneToOneHolds(Empty, pairs);
    forall w | w in m.name ensures m.name[w] in m.id && m.id[m.name[w]] == w {
      assert IDSet(items, w);
      var p :| p in items && p.0 == w;
    }
    forall x | x in m.id ensures m.id[x] in m.name && m.name[m.id[x]] == x {
      assert NameSet(items, x);
      var p :| p in items && p.1 == x;
    }
  }

  // ---------- iteration order ----------

  lemma {:induction false} SomeListing(items: set<Pair>) returns (pairs: seq<Pair>)
    ensures Lists(pairs, items)
    decreases |items|
  {
    pairs := [];
    if items != {} {
      var p :| p in items;
      var rest := SomeListing(items - {p});
      pairs := rest + [p];
    }
  }

  /** Two clashing pairs listed last, in either order, leave different maps. */
  lemma ClashShows(m: Maps, items: set<Pair>, p: Pair, q: Pair) returns (a: seq<Pair>, b: seq<Pair>)
    requires p in items && q in items && p != q && (p.0 == q.0 || p.1 == q.1)
    ensures Lists(a, items) && Lists(b, items) && WithPairs(m, a) != WithPairs(m, b)
  {
    var rest := SomeListing(items - {p, q});
    a, b := rest + [p, q], rest + [q, p];
    assert a[..|a| - 1] == rest + [p] && (rest + [p])[..|rest|] == rest;
    assert b[..|b| - 1] == rest + [q] && (rest + [q])[..|rest|] == rest;
    var base := WithPairs(m, rest);
    assert WithPairs(m, a) == WithPair(WithPair(base, p), q);
    assert WithPairs(m, b) == WithPair(WithPair(base, q), p);
    if p.0 == q.0 {
      assert WithPairs(m, a).name[p.0] == q.1 && WithPairs(m, b).name[p.0] == p.1;
    } else {
      assert WithPairs(m, a).id[p.1] == q.0 && WithPairs(m, b).id[p.1] == p.0;
    }
  }

  ghost predicate SameForEveryOrder(m: Maps, items: set<Pair>) {
    forall a, b :: Lists(a, items) && Lists(b, items) ==> WithPairs(m, a) == WithPairs(m, b)
  }

  /** Setting all entries of a map leaves the same maps for every iteration order exactly
      when no two entries share an id or a name. */
  lemma OrderIrrelevantExactlyWhen(m: Maps, items: set<Pair>)
    ensures SameForEveryOrder(m, items) <==> OneToOne(items)
  {
    if OneToOne(items) {
      forall a, b | Lists(a, items) && Lists(b, items) ensures WithPairs(m, a) == WithPairs(m, b) {
        assert Elements(a) == items && Elements(b) == items;
        OneToOneHolds(m, a);
        OneToOneHolds(m, b);
        HoldsDetermines(m, items, WithPairs(m, a), WithPairs(m, b));
      }
    } else {
      var p, q :| p in items && q in items && (p.0 == q.0 || p.1 == q.1) && p != q;
      var a, b := ClashShows(m, items, p, q);
    }
  }

  /** For `SetAllIDByName` that means an injective map. */
  lemma ItemsOneToOneExactlyWhen(enum: map<string, Word>)
    ensures OneToOne(ItemsByName(enum)) <==> forall x, y :: x in enum && y in enum && enum[x] == enum[y] ==> x == y
  {
    forall x, y | x in enum && y in enum && enum[x] == enum[y] && OneToOne(ItemsByName(enum)) ensures x == y {
      assert (enum[x], x) in ItemsByName(enum) && (enum[y], y) in ItemsByName(enum);
    }
  }

  // ---------- what setting all entries leaves ----------

  /** Whatever the order, entries of a map by name end up under their names, and every id is
      left with one of its names. */
  lemma {:induction false} PairsByName(m: Maps, enum: map<string, Word>, pairs: seq<Pair>)
    requires forall p :: p in pairs ==> p.1 in enum && enum[p.1] == p.0
    ensures var n := WithPairs(m, pairs);
      && (forall x :: x in n.id <==> x in m.id || NameSet(Elements(pairs), x))
      && (forall x :: x in n.id ==> n.id[x] == if NameSet(Elements(pairs), x) then enum[x] else m.id[x])
      && (forall w :: w in n.name <==> w in m.name || IDSet(Elements(pairs), w))
      && (forall w :: w in n.name ==>
            if IDSet(Elements(pairs), w) then n.name[w] in enum && enum[n.name[w]] == w
            else n.name[w] == m.name[w])
  {
    if pairs != [] {
      var init, last := pairs[..|pairs| - 1], pairs[|pairs| - 1];
      assert pairs == init + [last] && last in pairs;
      PairsByName(m, enum, init);
      SetsOneMore(init, last);
    }
  }

  lemma SetsOneMore(pairs: seq<Pair>, p: Pair)
    ensures forall x :: NameSet(Elements(pairs + [p]), x) <==> NameSet(Elements(pairs), x) || x == p.1
    ensures forall w :: IDSet(Elements(pairs + [p]), w) <==> IDSet(Elements(pairs), w) || w == p.0
  {
    assert Elements(pairs + [p]) == Elements(pairs) + {p};
    assert p in Elements(pairs + [p]);
  }

  /** Setting all ids by name leaves exactly the entries on top of the old ids, for every
      iteration order; every id of an entry gets the name of one with that id, all other
      names stay. */
  lemma SetAllByNameMeaning(m: Maps, enum: map<string, Word>, pairs: seq<Pair>)
    requires Lists(pairs, ItemsByName(enum))
    ensures var n := WithPairs(m, pairs);
      && n.id == m.id + enum
      && (forall w :: w in n.name <==> w in m.name || w in enum.Values)
      && (forall w :: w in n.name ==>
            if w in enum.Values then n.name[w] in enum && enum[n.name[w]] == w else n.name[w] == m.name[w])
  {
    assert Elements(pairs) == ItemsByName(enum);
    PairsByName(m, enum, pairs);
    SetByName(enum);
    SameMap(WithPairs(m, pairs).id, m.id, enum);
  }

  lemma SetByName(enum: map<string, Word>)
    ensures forall x :: NameSet(ItemsByName(enum), x) <==> x in enum
    ensures forall w :: IDSet(ItemsByName(enum), w) <==> w in enum.Values
  {
    var items := ItemsByName(enum);
    forall x ensures NameSet(items, x) <==> x in enum {
      assert x in enum ==> (enum[x], x) in items;
    }
    forall w ensures IDSet(items, w) <==> w in enum.Values {
      if x :| x in enum && enum[x] == w {
        assert (w, x) in items;
      }
    }
  }

  /** The maps with the roles of ids and names exchanged. */
  lemma {:induction false} PairsByID(m: Maps, enum: map<Word, string>, pairs: seq<Pair>)
    requires forall p :: p in pairs ==> p.0 in enum && enum[p.0] == p.1
    ensures var n := WithPairs(m, pairs);
      && (forall w :: w in n.name <==> w in m.name || IDSet(Elements(pairs), w))
      && (forall w :: w in n.name ==> n.name[w] == if IDSet(Elements(pairs), w) then enum[w] else m.name[w])
      && (forall x :: x in n.id <==> x in m.id || NameSet(Elements(pairs), x))
      && (forall x :: x in n.id ==>
            if NameSet(Elements(pairs), x) then n.id[x] in enum && enum[n.id[x]] == x else n.id[x] == m.id[x])
  {
    if pairs != [] {
      var init, last := pairs[..|pairs| - 1], pairs[|pairs| - 1];
      assert pairs == init + [last] && last in pairs;
      PairsByID(m, enum, init);
      SetsOneMore(init, last);
    }
  }

  /** The same of setting all names by id. */
  lemma SetAllByIDMeaning(m: Maps, enum: map<Word, string>, pairs: seq<Pair>)
    requires Lists(pairs, ItemsByID(enum))
    ensures var n := WithPairs(m, pairs);
      && n.name == m.name + enum
      && (forall x :: x in n.id <==> x in m.id || x in enum.Values)
      && (forall x :: x in n.id ==>
            if x in enum.Values then n.id[x] in enum && enum[n.id[x]] == x else n.id[x] == m.id[x])
  {
    assert Elements(pairs) == ItemsByID(enum);
    PairsByID(m, enum, pairs);
    SetByID(enum);
    SameMap(WithPairs(m, pairs).name, m.name, enum);
  }

  lemma SameMap<K, V>(n: map<K, V>, m: map<K, V>, enum: map<K, V>)
    requires forall k :: k in n <==> k in m || k in enum
    requires forall k :: k in n ==> n[k] == if k in enum then enum[k] else m[k]
    ensures n == m + enum
  {
  }

  lemma SetByID(enum: map<Word, string>)
    ensures forall w :: IDSet(ItemsByID(enum), w) <==> w in enum
    ensures forall x :: NameSet(ItemsByID(enum), x) <==> x in enum.Values
  {
    var items := ItemsByID(enum);
    forall w ensures IDSet(items, w) <==> w in enum {
      assert w in enum ==> (w, enum[w]) in items;
    }
    forall x ensures NameSet(items, x) <==> x in enum.Values {
      if w :| w in enum && enum[w] == x {
        assert (w, x) in items;
      }
    }
  }

  // ---------- the cache as a codec ----------

  /** A cache filled without conflicts by single-bit ids gives back every integer whose set
      bits it knows and that fits 32 bits, and no other. */
  lemma CacheRoundTrip(pairs: seq<Pair>, v: Word)
    requires OneToOne(Elements(pairs))
    ensures var m := WithPairs(Empty, pairs);
      Bits(m.id, Names(m.name, v, MaxBit)) == v <==>
      forall k: nat :: k < 64 && v[k] ==> k < 32 && exists x :: (Single(k), x) in pairs
  {
    var m, items := WithPairs(Empty, pairs), Elements(pairs);
    ConflictFreeInverse(pairs);
    RoundTripExactlyWhen(m.name, m.id, v);
    OneToOneHolds(Empty, pairs);
    forall k: nat ensures Single(k) in m.name <==> exists x :: (Single(k), x) in pairs {
      if Single(k) in m.name {
        assert IDSet(items, Single(k));
        var p :| p in items && p.0 == Single(k);
        assert (Single(k), p.1) in pairs;
      }
      if x :| (Single(k), x) in pairs {
        assert (Single(k), x) in items;
      }
    }
  }
}
