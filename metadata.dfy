/** `SerializationUtilities` of `PyriteLib/SerializationUtilties.cs`: which
    cubes of a set exist, as one bit per cube in the (X, Y, Z) order of the
    cube keys, packed least significant bit first into bytes and written as
    Base64.

    The dictionary is its sequence of entries in enumeration order; keys are
    compared by their coordinates. */
module Metadata {
  import opened Wrappers
  import opened Vectors
  import Base64

  type Byte = Base64.Byte

  /* ---------- key order ---------- */

  /** `OrderBy(k => k.X).ThenBy(k => k.Y).ThenBy(k => k.Z)`: strictly before. */
  predicate KeyBefore(a: Vector3, b: Vector3)
  {
    a.x < b.x || (a.x == b.x && (a.y < b.y || (a.y == b.y && a.z < b.z)))
  }

  predicate SortedKeys(ks: seq<Vector3>)
  {
    forall i, j :: 0 <= i < j < |ks| ==> !KeyBefore(ks[j], ks[i])
  }

  /** Lexicographic order is transitive, so "not after" chains. */
  lemma {:induction false} KeyOrderTransitive(a: Vector3, b: Vector3, c: Vector3)
    ensures !KeyBefore(b, a) && !KeyBefore(c, b) ==> !KeyBefore(c, a)
    ensures KeyBefore(a, b) && !KeyBefore(c, b) ==> !KeyBefore(c, a)
  {
  }

  /** `k` placed before the first key that comes strictly after it, so that
      keys equal in order keep their input order. */
  function InsertKey(k: Vector3, ks: seq<Vector3>): (r: seq<Vector3>)
    ensures |r| == |ks| + 1
  {
    if ks == [] then [k]
    else if KeyBefore(k, ks[0]) then [k] + ks
    else [ks[0]] + InsertKey(k, ks[1..])
  }

  lemma {:induction false} InsertKeyMultiset(k: Vector3, ks: seq<Vector3>)
    ensures multiset(InsertKey(k, ks)) == multiset(ks) + multiset{k}
  {
    if ks != [] && !KeyBefore(k, ks[0]) {
      InsertKeyMultiset(k, ks[1..]);
      assert ks == [ks[0]] + ks[1..];
    }
  }

  lemma {:induction false} InsertKeySorted(k: Vector3, ks: seq<Vector3>)
    requires SortedKeys(ks)
    ensures SortedKeys(InsertKey(k, ks))
  {
    if ks == [] {
    } else if KeyBefore(k, ks[0]) {
      var r := InsertKey(k, ks);
      forall j | 1 <= j < |r| ensures !KeyBefore(r[j], k) {
        KeyOrderTransitive(k, ks[0], r[j]);
      }
    } else {
      var rest := InsertKey(k, ks[1..]);
      InsertKeySorted(k, ks[1..]);
      InsertKeyMultiset(k, ks[1..]);
      var r := [ks[0]] + rest;
      forall j | 0 <= j < |rest| ensures !KeyBefore(rest[j], ks[0]) {
        assert rest[j] in multiset(rest);
        if rest[j] != k {
          assert rest[j] in multiset(ks[1..]);
          var m :| 0 <= m < |ks[1..]| && ks[1..][m] == rest[j];
          assert ks[m + 1] == rest[j];
        }
      }
      assert forall i, j :: 0 <= i < j < |r| ==> !KeyBefore(r[j], r[i]) by {
        forall i, j | 0 <= i < j < |r| ensures !KeyBefore(r[j], r[i]) {
          if i == 0 {
            assert r[j] == rest[j - 1];
          } else {
            assert r[i] == rest[i - 1] && r[j] == rest[j - 1];
          }
        }
      }
    }
  }

  /** The stable sort the LINQ ordering performs. */
  function SortKeys(ks: seq<Vector3>): (r: seq<Vector3>)
    ensures |r| == |ks|
    decreases |ks|
  {
    if ks == [] then []
    else InsertKey(ks[|ks| - 1], SortKeys(ks[..|ks| - 1]))
  }

  /** The keys come out in (X, Y, Z) order, each as often as it went in. */
  lemma {:induction false} SortKeysSpec(ks: seq<Vector3>)
    ensures SortedKeys(SortKeys(ks)) && multiset(SortKeys(ks)) == multiset(ks)
    decreases |ks|
  {
    if ks != [] {
      var init := ks[..|ks| - 1];
      SortKeysSpec(init);
      InsertKeySorted(ks[|ks| - 1], SortKeys(init));
      InsertKeyMultiset(ks[|ks| - 1], SortKeys(init));
      assert ks == init + [ks[|ks| - 1]];
    }
  }

  /* ---------- the dictionary ---------- */

  function Keys<T>(entries: seq<(Vector3, T)>): (r: seq<Vector3>)
    ensures |r| == |entries| && forall i :: 0 <= i < |r| ==> r[i] == entries[i].0
  {
    seq(|entries|, i requires 0 <= i < |entries| => entries[i].0)
  }

  predicate DistinctKeys<T>(entries: seq<(Vector3, T)>)
  {
    forall i, j :: 0 <= i < j < |entries| ==> entries[i].0 != entries[j].0
  }

  /** No key occurs twice. */
  predicate NoRepeats(ks: seq<Vector3>)
  {
    forall i, j :: 0 <= i < j < |ks| ==> ks[i] != ks[j]
  }

  /** A key sequence has no repeats exactly when each key occurs at most once
      in its multiset. */
  lemma {:induction false} NoRepeatsCounts(ks: seq<Vector3>)
    ensures NoRepeats(ks) <==> forall x :: multiset(ks)[x] <= 1
    decreases |ks|
  {
    if ks != [] {
      var t := ks[1..];
      NoRepeatsCounts(t);
      assert ks == [ks[0]] + t;
      assert multiset(ks) == multiset{ks[0]} + multiset(t);
      if NoRepeats(ks) {
        assert NoRepeats(t) by {
          forall i, j | 0 <= i < j < |t| ensures t[i] != t[j] {
            assert t[i] == ks[i + 1] && t[j] == ks[j + 1];
          }
        }
      }
      if forall x :: multiset(ks)[x] <= 1 {
        assert multiset(ks)[ks[0]] <= 1;
        assert multiset(t)[ks[0]] == 0;
        assert forall x :: multiset(t)[x] <= 1 by {
          forall x ensures multiset(t)[x] <= 1 {
            assert multiset(ks)[x] >= multiset(t)[x];
          }
        }
        forall i, j | 0 <= i < j < |ks| ensures ks[i] != ks[j] {
          if i == 0 {
            assert ks[j] == t[j - 1];
          } else {
            assert ks[i] == t[i - 1] && ks[j] == t[j - 1];
          }
        }
      }
    }
  }

  /** Reordering keys neither creates nor removes a repeat. */
  lemma {:induction false} NoRepeatsPermutation(a: seq<Vector3>, b: seq<Vector3>)
    requires multiset(a) == multiset(b)
    ensures NoRepeats(a) <==> NoRepeats(b)
  {
    NoRepeatsCounts(a);
    NoRepeatsCounts(b);
  }

  /** `cubeExists[k]`: the value stored under `k`. */
  function ValueAt(entries: seq<(Vector3, int)>, k: Vector3): int
  {
    if entries == [] then 0
    else if entries[0].0 == k then entries[0].1
    else ValueAt(entries[1..], k)
  }

  lemma {:induction false} ValueAtEntry(entries: seq<(Vector3, int)>, i: nat)
    requires DistinctKeys(entries) && i < |entries|
    ensures ValueAt(entries, entries[i].0) == entries[i].1
  {
    if i > 0 {
      ValueAtEntry(entries[1..], i - 1);
    }
  }

  /* ---------- bits and bytes ---------- */

  /** Up to eight bits as a byte, the first bit least significant. */
  function ByteOf(bs: seq<bool>): (r: nat)
    ensures r < Pow2(|bs|)
  {
    if bs == [] then 0 else (if bs[0] then 1 else 0) + 2 * ByteOf(bs[1..])
  }

  function Pow2(n: nat): (r: nat)
    ensures r >= 1
  {
    if n == 0 then 1 else 2 * Pow2(n - 1)
  }

  lemma {:induction false} Pow2Bound(n: nat)
    requires n <= 8
    ensures Pow2(n) <= 256
    decreases 8 - n
  {
    if n < 8 {
      Pow2Bound(n + 1);
    } else {
      assert Pow2(1) == 2 && Pow2(2) == 4 && Pow2(3) == 8 && Pow2(4) == 16;
      assert Pow2(5) == 32 && Pow2(6) == 64 && Pow2(7) == 128;
    }
  }

  /** Bit `j` of `n`, counting from the least significant. */
  function Bit(n: nat, j: nat): bool
  {
    if j == 0 then n % 2 == 1 else Bit(n / 2, j - 1)
  }

  lemma {:induction false} BitOfByte(bs: seq<bool>, j: nat)
    ensures Bit(ByteOf(bs), j) == (j < |bs| && bs[j])
  {
    if bs != [] {
      var h := if bs[0] then 1 else 0;
      assert (h + 2 * ByteOf(bs[1..])) % 2 == h;
      assert (h + 2 * ByteOf(bs[1..])) / 2 == ByteOf(bs[1..]);
      if j > 0 {
        BitOfByte(bs[1..], j - 1);
      }
    } else {
      ZeroBits(j);
    }
  }

  lemma {:induction false} ZeroBits(j: nat)
    ensures !Bit(0, j)
  {
    if j > 0 {
      ZeroBits(j - 1);
    }
  }

  /** `BitArray.CopyTo(bytes, 0)` into `(n + 7) / 8` bytes. */
  function Pack(bits: seq<bool>): (r: seq<Byte>)
    ensures |r| == (|bits| + 7) / 8
  {
    seq((|bits| + 7) / 8, j requires 0 <= j < (|bits| + 7) / 8 => PackedByte(bits, j))
  }

  /** Byte `j` of the packing: bits `8j` to `8j + 7`, those past the end zero. */
  function PackedByte(bits: seq<bool>, j: nat): (r: Byte)
    requires j < (|bits| + 7) / 8
    ensures forall b: nat :: b < 8 ==> Bit(r, b) == (8 * j + b < |bits| && bits[8 * j + b])
  {
    var hi := if 8 * j + 8 <= |bits| then 8 * j + 8 else |bits|;
    Pow2Bound(hi - 8 * j);
    forall b: nat | b < 8 ensures Bit(ByteOf(bits[8 * j .. hi]), b) == (8 * j + b < |bits| && bits[8 * j + b]) {
      BitOfByte(bits[8 * j .. hi], b);
    }
    ByteOf(bits[8 * j .. hi])
  }

  /** `new BitArray(bytes)`: eight bits per byte, least significant first. */
  function Unpack(bytes: seq<Byte>): (r: seq<bool>)
    ensures |r| == 8 * |bytes|
  {
    seq(8 * |bytes|, i requires 0 <= i < 8 * |bytes| => Bit(bytes[i / 8], i % 8))
  }

  /** Unpacking a packing gives the bits back, followed by zero padding. */
  lemma {:induction false} PackUnpack(bits: seq<bool>)
    ensures |Unpack(Pack(bits))| >= |bits|
    ensures forall i :: 0 <= i < |Unpack(Pack(bits))| ==> Unpack(Pack(bits))[i] == (i < |bits| && bits[i])
  {
    var u := Unpack(Pack(bits));
    forall i | 0 <= i < |u| ensures u[i] == (i < |bits| && bits[i]) {
      assert u[i] == Bit(PackedByte(bits, i / 8), i % 8);
    }
  }

  /* ---------- the codec ---------- */

  /** The bit of each key, in key order: set iff its value is positive. */
  function ExistenceBits(entries: seq<(Vector3, int)>): (r: seq<bool>)
    ensures |r| == |entries|
    ensures forall i :: 0 <= i < |r| ==> r[i] == (ValueAt(entries, SortKeys(Keys(entries))[i]) > 0)
  {
    var keys := SortKeys(Keys(entries));
    seq(|keys|, i requires 0 <= i < |keys| => ValueAt(entries, keys[i]) > 0)
  }

  /** `EncodeMetadataToBase64`. */
  function EncodeMetadata(entries: seq<(Vector3, int)>): string
  {
    Base64.Encode(Pack(ExistenceBits(entries)))
  }

  const OutOfRange := "ArgumentOutOfRangeException: more cubes than bits"
  const DuplicateKey := "ArgumentException: an item with the same key has already been added"

  /** The loop of `DecodeMetadataFromBase64` over the ordered keys: the
      `Add` of key `i` first reads bit `i`, which fails once the bits run out,
      and then fails on a key the result already holds. The first failing
      key decides the error. */
  function AddAll(keys: seq<Vector3>, bits: seq<bool>): (r: Result<seq<(Vector3, bool)>>)
    ensures r.Success? <==> |keys| <= |bits| && NoRepeats(keys)
    ensures r.Success? ==> r.value == seq(|keys|, i requires 0 <= i < |keys| => (keys[i], bits[i]))
    decreases |keys|
  {
    if keys == [] then Success([])
    else
      var init := keys[..|keys| - 1];
      var k := keys[|keys| - 1];
      assert NoRepeats(keys) ==> NoRepeats(init) by {
        assert forall i :: 0 <= i < |init| ==> init[i] == keys[i];
      }
      match AddAll(init, bits)
      case Failure(e) => Failure(e)
      case Success(r) =>
        if |init| >= |bits| then Failure(OutOfRange)
        else if k in Keys(r) then
          assert !NoRepeats(keys) by {
            var j :| 0 <= j < |r| && Keys(r)[j] == k;
            assert keys[j] == k;
          }
          Failure(DuplicateKey)
        else
          assert NoRepeats(keys) by {
            forall i, j | 0 <= i < j < |keys| ensures keys[i] != keys[j] {
              if j == |keys| - 1 {
                assert Keys(r)[i] == keys[i];
              } else {
                assert init[i] == keys[i] && init[j] == keys[j];
              }
            }
          }
          Success(r + [(k, bits[|init|])])
  }

  /** One turn of the loop: the `Add` of key `i` after the first `i`. */
  lemma {:induction false} AddAllStep(keys: seq<Vector3>, bits: seq<bool>, i: nat, result: seq<(Vector3, bool)>)
    requires i < |keys| && AddAll(keys[..i], bits) == Success(result)
    ensures AddAll(keys[..i + 1], bits) ==
      if i >= |bits| then Failure(OutOfRange)
      else if keys[i] in Keys(result) then Failure(DuplicateKey)
      else Success(result + [(keys[i], bits[i])])
  {
    var p := keys[..i + 1];
    assert p[..|p| - 1] == keys[..i];
    assert p[|p| - 1] == keys[i];
  }

  /** Once a prefix of the keys fails, the whole loop fails the same way. */
  lemma {:induction false} AddAllPrefix(keys: seq<Vector3>, bits: seq<bool>, n: nat)
    requires n <= |keys| && AddAll(keys[..n], bits).Failure?
    ensures AddAll(keys, bits) == AddAll(keys[..n], bits)
    decreases |keys| - n
  {
    if n < |keys| {
      assert keys[..n + 1][..n] == keys[..n];
      AddAllPrefix(keys, bits, n + 1);
    } else {
      assert keys[..n] == keys;
    }
  }

  /** `DecodeMetadataFromBase64`: the keys in order, each with its bit. A
      string that is not Base64 is a `FormatException`; more keys than bits
      is the `ArgumentOutOfRangeException` of the bit array's indexer; a cube
      given twice is the `ArgumentException` of the dictionary's `Add`. */
  function DecodeMetadata(cubes: seq<Vector3>, s: string): (r: Result<seq<(Vector3, bool)>>)
    ensures r.Success? <==>
      Base64.Decode(s).Success? && |cubes| <= 8 * |Base64.Decode(s).value| && NoRepeats(cubes)
    ensures r.Success? ==> Keys(r.value) == SortKeys(cubes)
    ensures r.Success? ==> forall i :: 0 <= i < |r.value| ==> r.value[i].1 == Unpack(Base64.Decode(s).value)[i]
  {
    SortKeysSpec(cubes);
    NoRepeatsPermutation(cubes, SortKeys(cubes));
    match Base64.Decode(s)
    case Failure(e) => Failure(e)
    case Success(bytes) => AddAll(SortKeys(cubes), Unpack(bytes))
  }

  /** The sorted keys, each paired with its existence bit. */
  function KeyedExistence(entries: seq<(Vector3, int)>): (r: seq<(Vector3, bool)>)
    ensures |r| == |entries| && Keys(r) == SortKeys(Keys(entries))
    ensures forall i :: 0 <= i < |r| ==> r[i].1 == ExistenceBits(entries)[i]
  {
    var keys := SortKeys(Keys(entries));
    seq(|keys|, i requires 0 <= i < |keys| => (keys[i], ExistenceBits(entries)[i]))
  }

  /** Decoding the encoding with the same cubes gives each cube, in key
      order, with its existence bit. */
  lemma {:induction false} DecodeEncoded(entries: seq<(Vector3, int)>)
    requires DistinctKeys(entries)
    ensures DecodeMetadata(Keys(entries), EncodeMetadata(entries)) == Success(KeyedExistence(entries))
  {
    var bits := ExistenceBits(entries);
    var bytes := Pack(bits);
    Base64.EncodeDecode(bytes);
    assert Base64.Decode(EncodeMetadata(entries)) == Success(bytes);
    PackUnpack(bits);
    assert NoRepeats(Keys(entries));
    var r := DecodeMetadata(Keys(entries), EncodeMetadata(entries));
    var want := KeyedExistence(entries);
    assert r.Success?;
    forall i | 0 <= i < |want| ensures r.value[i] == want[i] {
      assert r.value[i].0 == Keys(r.value)[i] && want[i].0 == Keys(want)[i];
    }
    assert r.value == want;
  }

  /** Decoding the encoding with the same cubes gives every cube with whether
      its value was positive, and nothing else. */
  lemma {:induction false} MetadataRoundTrip(entries: seq<(Vector3, int)>)
    requires DistinctKeys(entries)
    ensures var r := DecodeMetadata(Keys(entries), EncodeMetadata(entries));
      r.Success? && |r.value| == |entries|
      && (forall i :: 0 <= i < |r.value| ==> r.value[i].1 == (ValueAt(entries, r.value[i].0) > 0))
      && (forall e :: e in entries ==> (e.0, e.1 > 0) in r.value)
  {
    DecodeEncoded(entries);
    KeyedBits(entries);
  }

  /** The sorted keys paired with their existence bits: each pair's bit says
      whether its key's value is positive, and every entry has its pair. */
  lemma {:induction false} KeyedBits(entries: seq<(Vector3, int)>)
    requires DistinctKeys(entries)
    ensures var got := KeyedExistence(entries);
      |got| == |entries|
      && (forall i :: 0 <= i < |got| ==> got[i].1 == (ValueAt(entries, got[i].0) > 0))
      && (forall e :: e in entries ==> (e.0, e.1 > 0) in got)
  {
    var keys := SortKeys(Keys(entries));
    var got := KeyedExistence(entries);
    var bits := ExistenceBits(entries);
    SortKeysSpec(Keys(entries));
    forall i | 0 <= i < |got| ensures got[i].1 == (ValueAt(entries, got[i].0) > 0) {
      assert got[i].0 == Keys(got)[i] == keys[i];
    }
    forall e | e in entries ensures (e.0, e.1 > 0) in got {
      var i :| 0 <= i < |entries| && entries[i] == e;
      ValueAtEntry(entries, i);
      assert Keys(entries)[i] == e.0;
      assert e.0 in multiset(Keys(entries));
      assert e.0 in multiset(keys);
      var j :| 0 <= j < |keys| && keys[j] == e.0;
      assert got[j].0 == Keys(got)[j];
      assert got[j] == (e.0, e.1 > 0);
    }
  }

  /* ---------- the loops ---------- */

  /** `EncodeMetadataToBase64`: the bit array filled key by key, then
      packed and encoded. */
  method EncodeMetadataToBase64(entries: seq<(Vector3, int)>) returns (s: string)
    ensures s == EncodeMetadata(entries)
  {
    var keys := SortKeys(Keys(entries));
    var bits: seq<bool> := [];
    var i := 0;
    while i < |keys|
      invariant 0 <= i <= |keys|
      invariant bits == ExistenceBits(entries)[..i]
    {
      bits := bits + [ValueAt(entries, keys[i]) > 0];
      i := i + 1;
    }
    assert bits == ExistenceBits(entries);
    s := Base64.Encode(Pack(bits));
  }

  /** `DecodeMetadataFromBase64`: the Base64 decoded and unpacked, then the
      result filled key by key. */
  method DecodeMetadataFromBase64(cubes: seq<Vector3>, s: string) returns (r: Result<seq<(Vector3, bool)>>)
    ensures r == DecodeMetadata(cubes, s)
  {
    var decoded := Base64.Decode(s);
    if decoded.Failure? {
      return Failure(decoded.error);
    }
    r := AddEach(SortKeys(cubes), Unpack(decoded.value));
  }

  /** The loop of `DecodeMetadataFromBase64`: each key read with its bit
      and added, the first failing `Add` ending the loop. */
  method AddEach(keys: seq<Vector3>, bits: seq<bool>) returns (r: Result<seq<(Vector3, bool)>>)
    ensures r == AddAll(keys, bits)
  {
    var result: seq<(Vector3, bool)> := [];
    var i := 0;
    while i < |keys|
      invariant 0 <= i <= |keys| && i <= |bits|
      invariant AddAll(keys[..i], bits) == Success(result)
    {
      AddAllStep(keys, bits, i, result);
      if i >= |bits| {
        AddAllPrefix(keys, bits, i + 1);
        return Failure(OutOfRange);
      }
      if keys[i] in Keys(result) {
        AddAllPrefix(keys, bits, i + 1);
        return Failure(DuplicateKey);
      }
      result := result + [(keys[i], bits[i])];
      i := i + 1;
    }
    assert keys[..i] == keys;
    r := Success(result);
  }
}
