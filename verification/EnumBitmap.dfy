/** `pkg/enumbitmap/enumbitmap.go`: lists of enumeration names as the bits of an integer. */
module EnumBitmap {
  import opened Common

  // ---------- integers as bits ----------

  /** An `int`: its 64 bits in two's complement, lowest first. */
  type Word = w: seq<bool> | |w| == 64 witness NoBits()

  function NoBits(): (z: seq<bool>)
    ensures |z| == 64 && forall k :: 0 <= k < 64 ==> !z[k]
  {
    seq(64, _ => false)
  }

  const Zero: Word := NoBits()

  /** The k-th power of two. */
  function Single(k: nat): Word { seq(64, j => j == k) }

  function And(a: Word, b: Word): Word { seq(64, k requires 0 <= k < 64 => a[k] && b[k]) }
  function Or(a: Word, b: Word): Word { seq(64, k requires 0 <= k < 64 => a[k] || b[k]) }
  function ShiftLeft(a: Word): Word { [false] + a[..63] }

  const MaxBit: nat := 32

  lemma SingleIn(v: Word, k: nat)
    requires k < 64
    ensures And(v, Single(k)) == Single(k) <==> v[k]
  {
    if v[k] {
      assert forall j :: 0 <= j < 64 ==> And(v, Single(k))[j] == Single(k)[j];
    } else {
      assert !And(v, Single(k))[k] && Single(k)[k];
    }
  }

  lemma SingleShifts(k: nat)
    ensures ShiftLeft(Single(k)) == Single(k + 1)
    ensures k < 64 ==> forall j: nat :: j < 64 && Single(j) == Single(k) ==> j == k
  {
    forall j: nat | k < 64 && j < 64 && Single(j) == Single(k) ensures j == k {
      assert Single(k)[k] == Single(j)[k];
    }
  }

  // ---------- decoding ----------

  /** The names of the known bits among the lowest `n`, in bit order. */
  function Names(enum: map<Word, string>, v: Word, n: nat): seq<string>
    requires n <= 64
  {
    if n == 0 then []
    else Names(enum, v, n - 1) + (if v[n - 1] && Single(n - 1) in enum then [enum[Single(n - 1)]] else [])
  }

  /** The numbers, counted from one, of the unknown bits among the lowest `n`. */
  function UnknownBits(enum: map<Word, string>, v: Word, n: nat): seq<nat>
    requires n <= 64
  {
    if n == 0 then []
    else UnknownBits(enum, v, n - 1) + (if v[n - 1] && Single(n - 1) !in enum then [n] else [])
  }

  lemma {:induction false} NothingInZero(enum: map<Word, string>, n: nat)
    requires n <= 64
    ensures Names(enum, Zero, n) == [] && UnknownBits(enum, Zero, n) == []
  {
    if n > 0 {
      NothingInZero(enum, n - 1);
    }
  }

  /** `err` is set when `errBits` is not empty. */
  method BitMapToStrings(enum: map<Word, string>, v: Word) returns (s: seq<string>, errBits: seq<nat>)
    ensures s == Names(enum, v, MaxBit) && errBits == UnknownBits(enum, v, MaxBit)
  {
    s, errBits := [], [];
    if v == Zero {
      NothingInZero(enum, MaxBit);
      return;
    }
    var i := Single(0);
    for bit := 1 to MaxBit + 1
      invariant i == Single(bit - 1)
      invariant s == Names(enum, v, bit - 1) && errBits == UnknownBits(enum, v, bit - 1)
    {
      SingleIn(v, bit - 1);
      if And(v, i) == i {
        if i in enum {
          s := s + [enum[i]];
        } else {
          errBits := errBits + [bit];
        }
      }
      SingleShifts(bit - 1);
      i := ShiftLeft(i);
    }
  }

  // ---------- encoding ----------

  /** The bits of all known names. */
  function Bits(enum: map<string, Word>, s: seq<string>): Word {
    if s == [] then Zero
    else
      var key := s[|s| - 1];
      if key in enum then Or(Bits(enum, s[..|s| - 1]), enum[key]) else Bits(enum, s[..|s| - 1])
  }

  function UnknownNames(enum: map<string, Word>, s: seq<string>): seq<string> {
    if s == [] then []
    else
      var key := s[|s| - 1];
      UnknownNames(enum, s[..|s| - 1]) + (if key in enum then [] else [key])
  }

  /** `err` is set when `errStrings` is not empty. */
  method StringsToBitMap(enum: map<string, Word>, s: seq<string>) returns (v: Word, errStrings: seq<string>)
    ensures v == Bits(enum, s) && errStrings == UnknownNames(enum, s)
  {
    v, errStrings := Zero, [];
    for k := 0 to |s|
      invariant v == Bits(enum, s[..k]) && errStrings == UnknownNames(enum, s[..k])
    {
      assert s[..k + 1][..k] == s[..k];
      if s[k] in enum {
        v := Or(v, enum[s[k]]);
      } else {
        errStrings := errStrings + [s[k]];
      }
    }
    assert s[..|s|] == s;
  }

  // ---------- what the two compute ----------

  /** A bit is set exactly when some known name in the list has it. */
  lemma {:induction false} BitsMeaning(enum: map<string, Word>, s: seq<string>, k: nat)
    requires k < 64
    ensures Bits(enum, s)[k] <==> exists x :: x in s && x in enum && enum[x][k]
  {
    if s != [] {
      var init, key := s[..|s| - 1], s[|s| - 1];
      assert s == init + [key];
      BitsMeaning(enum, init, k);
      if key in enum && enum[key][k] {
        assert key in s;
      }
    }
  }

  lemma {:induction false} NamesMeaning(enum: map<Word, string>, v: Word, n: nat, x: string)
    requires n <= 64
    ensures x in Names(enum, v, n) <==> exists k: nat :: k < n && v[k] && Single(k) in enum && enum[Single(k)] == x
  {
    if n > 0 {
      NamesMeaning(enum, v, n - 1, x);
    }
  }

  /** The decode error is set exactly when some set bit below 32 is unknown, and names those bits. */
  lemma {:induction false} DecodeErrorMeaning(enum: map<Word, string>, v: Word, n: nat, b: nat)
    requires n <= 64
    ensures b in UnknownBits(enum, v, n) <==> 1 <= b <= n && v[b - 1] && Single(b - 1) !in enum
  {
    if n > 0 {
      DecodeErrorMeaning(enum, v, n - 1, b);
    }
  }

  lemma {:induction false} EncodeErrorMeaning(enum: map<string, Word>, s: seq<string>, x: string)
    ensures x in UnknownNames(enum, s) <==> x in s && x !in enum
  {
    if s != [] {
      var init, key := s[..|s| - 1], s[|s| - 1];
      assert s == init + [key];
      EncodeErrorMeaning(enum, init, x);
    }
  }

  /** The encoding only depends on which names are in the list. */
  lemma EncodeOrderIrrelevant(enum: map<string, Word>, s: seq<string>, t: seq<string>)
    requires forall x :: x in s <==> x in t
    ensures Bits(enum, s) == Bits(enum, t)
  {
    forall k: nat | k < 64 ensures Bits(enum, s)[k] == Bits(enum, t)[k] {
      BitsMeaning(enum, s, k);
      BitsMeaning(enum, t, k);
    }
  }

  // ---------- round trips ----------

  /** The two maps are inverses of each other. */
  ghost predicate Inverse(name: map<Word, string>, id: map<string, Word>) {
    && (forall w :: w in name ==> name[w] in id && id[name[w]] == w)
    && (forall x :: x in id ==> id[x] in name && name[id[x]] == x)
  }

  ghost predicate SingleBits(id: map<string, Word>) {
    forall x :: x in id ==> exists k: nat :: k < 64 && id[x] == Single(k)
  }

  /** The bits of `v` that decoding looks at and knows. */
  function KnownBits(name: map<Word, string>, v: Word): Word {
    seq(64, k requires 0 <= k < 64 => v[k] && k < MaxBit && Single(k) in name)
  }

  /** Encoding the decoded names gives the known bits below 32, and no encode error. */
  lemma EncodeOfDecode(name: map<Word, string>, id: map<string, Word>, v: Word)
    requires Inverse(name, id)
    ensures Bits(id, Names(name, v, MaxBit)) == KnownBits(name, v)
    ensures UnknownNames(id, Names(name, v, MaxBit)) == []
  {
    var names := Names(name, v, MaxBit);
    forall k: nat | k < 64 ensures Bits(id, names)[k] == KnownBits(name, v)[k] {
      BitsMeaning(id, names, k);
      if Bits(id, names)[k] {
        var x :| x in names && x in id && id[x][k];
        NamesMeaning(name, v, MaxBit, x);
        var j: nat :| j < MaxBit && v[j] && Single(j) in name && name[Single(j)] == x;
        assert id[x] == Single(j);
      }
      if KnownBits(name, v)[k] {
        var x := name[Single(k)];
        NamesMeaning(name, v, MaxBit, x);
        assert x in names && id[x] == Single(k);
      }
    }
    if UnknownNames(id, names) != [] {
      var x := UnknownNames(id, names)[0];
      EncodeErrorMeaning(id, names, x);
      NamesMeaning(name, v, MaxBit, x);
    }
  }

  lemma KnownBitsAreAllExactlyWhen(name: map<Word, string>, v: Word)
    ensures KnownBits(name, v) == v <==> forall k: nat :: k < 64 && v[k] ==> k < MaxBit && Single(k) in name
  {
    var known := KnownBits(name, v);
    if forall k: nat :: k < 64 && v[k] ==> k < MaxBit && Single(k) in name {
      assert forall k: nat :: k < 64 ==> known[k] == v[k];
    }
  }

  lemma NoUnknownBitsExactlyWhen(name: map<Word, string>, v: Word)
    ensures UnknownBits(name, v, MaxBit) == [] <==> forall k: nat :: k < MaxBit && v[k] ==> Single(k) in name
  {
    var unknown := UnknownBits(name, v, MaxBit);
    if unknown != [] {
      DecodeErrorMeaning(name, v, MaxBit, unknown[0]);
    }
    forall k: nat | k < MaxBit && v[k] && unknown == [] ensures Single(k) in name {
      DecodeErrorMeaning(name, v, MaxBit, k + 1);
    }
  }

  /** Exactly when decoding and encoding gives an integer back: every set bit is known and
      lies below bit 32. A set bit from 32 on is dropped without any error. */
  lemma RoundTripExactlyWhen(name: map<Word, string>, id: map<string, Word>, v: Word)
    requires Inverse(name, id)
    ensures Bits(id, Names(name, v, MaxBit)) == v <==>
            forall k: nat :: k < 64 && v[k] ==> k < 32 && Single(k) in name
    ensures Bits(id, Names(name, v, MaxBit)) == v <==>
            UnknownBits(name, v, MaxBit) == [] && forall k: nat :: 32 <= k < 64 ==> !v[k]
  {
    EncodeOfDecode(name, id, v);
    KnownBitsAreAllExactlyWhen(name, v);
    NoUnknownBitsExactlyWhen(name, v);
  }

  /** With single-bit ids, decoding an encoded list gives exactly its known names whose bit
      lies below 32, and no decode error. */
  lemma DecodeOfEncode(name: map<Word, string>, id: map<string, Word>, s: seq<string>, x: string)
    requires Inverse(name, id) && SingleBits(id)
    ensures x in Names(name, Bits(id, s), MaxBit) <==>
            x in s && x in id && exists k: nat :: k < 32 && id[x] == Single(k)
    ensures UnknownBits(name, Bits(id, s), MaxBit) == []
  {
    var v := Bits(id, s);
    forall k: nat | k < 64 && v[k] ensures Single(k) in name && name[Single(k)] in s {
      BitsMeaning(id, s, k);
      var y :| y in s && y in id && id[y][k];
      var j: nat :| j < 64 && id[y] == Single(j);
      assert j == k;
    }
    NamesMeaning(name, v, MaxBit, x);
    if x in s && x in id && exists k: nat :: k < MaxBit && id[x] == Single(k) {
      var k: nat :| k < MaxBit && id[x] == Single(k);
      BitsMeaning(id, s, k);
      assert v[k] && Single(k) in name && name[Single(k)] == x;
    }
    if UnknownBits(name, v, MaxBit) != [] {
      var b := UnknownBits(name, v, MaxBit)[0];
      DecodeErrorMeaning(name, v, MaxBit, b);
    }
  }

  /** Decoded names come in increasing bit order, so none comes twice: `at` lists exactly the
      known set bits, and the names are theirs. */
  lemma {:induction false} NamesInBitOrder(name: map<Word, string>, v: Word, n: nat) returns (at: seq<nat>)
    requires n <= 64
    ensures |at| == |Names(name, v, n)|
    ensures forall k: nat :: k in at <==> k < n && v[k] && Single(k) in name
    ensures forall j :: 0 <= j < |at| ==> Single(at[j]) in name && Names(name, v, n)[j] == name[Single(at[j])]
    ensures forall i, j :: 0 <= i < j < |at| ==> at[i] < at[j]
  {
    at := [];
    if n > 0 {
      at := NamesInBitOrder(name, v, n - 1);
      forall j | 0 <= j < |at| ensures at[j] < n - 1 {
        assert at[j] in at;
      }
      if v[n - 1] && Single(n - 1) in name {
        at := at + [n - 1];
      }
    }
  }

  /** The error lists the unknown bits in increasing order, each once. */
  lemma {:induction false} UnknownBitsInOrder(name: map<Word, string>, v: Word, n: nat)
    requires n <= 64
    ensures forall i, j :: 0 <= i < j < |UnknownBits(name, v, n)| ==>
              UnknownBits(name, v, n)[i] < UnknownBits(name, v, n)[j]
    ensures forall b :: b in UnknownBits(name, v, n) ==> 1 <= b <= n
  {
    if n > 0 {
      var before, all := UnknownBits(name, v, n - 1), UnknownBits(name, v, n);
      UnknownBitsInOrder(name, v, n - 1);
      forall i, j | 0 <= i < j < |all| ensures all[i] < all[j] {
        assert all[i] == before[i] && before[i] in before;
      }
    }
  }

  /** The encode error repeats the unknown names as they come: `at` lists their positions. */
  lemma {:induction false} UnknownNamesInOrder(id: map<string, Word>, s: seq<string>) returns (at: seq<nat>)
    ensures |at| == |UnknownNames(id, s)|
    ensures forall k: nat :: k in at <==> k < |s| && s[k] !in id
    ensures forall j :: 0 <= j < |at| ==> at[j] < |s| && UnknownNames(id, s)[j] == s[at[j]]
    ensures forall i, j :: 0 <= i < j < |at| ==> at[i] < at[j]
  {
    at := [];
    if s != [] {
      var n := |s| - 1;
      at := UnknownNamesInOrder(id, s[..n]);
      forall k: nat | k < n ensures s[..n][k] == s[k] {
      }
      if s[n] !in id {
        at := at + [n];
      }
    }
  }
}
