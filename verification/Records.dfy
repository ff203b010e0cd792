/** Flow records and the byte keys the aggregator groups them by. */
module Records {
  import opened Bits

  type Byte = x: int | 0 <= x < 256

  /** A flow record. `first` and `last` are 64-bit fixed-point times with the seconds in the upper half;
      the remaining fields are unsigned numbers by field name. A field the record does not carry reads as 0. */
  datatype Record = Record(first: nat, last: nat, count: nat, vals: map<string, nat>)

  function Get(r: Record, name: string): nat {
    if name in r.vals then r.vals[name] else 0
  }

  const SECOND: nat := 0x1_0000_0000

  function Sec(t: nat): nat { t / SECOND }

  // ---- Keys ----

  /** The n little-endian bytes of a field as they lie in the record. */
  function ToBytes(v: nat, n: nat): (b: seq<Byte>)
    ensures |b| == n
  {
    if n == 0 then [] else [v % 256] + ToBytes(v / 256, n - 1)
  }

  /** A key field and its width in bytes. */
  datatype KeyField = KeyField(name: string, size: nat)

  function KeyOf(keys: seq<KeyField>, r: Record): seq<Byte> {
    if keys == [] then []
    else KeyOf(keys[..|keys| - 1], r) + ToBytes(Get(r, keys[|keys| - 1].name), keys[|keys| - 1].size)
  }

  function KeySize(keys: seq<KeyField>): nat {
    if keys == [] then 0 else KeySize(keys[..|keys| - 1]) + keys[|keys| - 1].size
  }

  /** Every key field of the record fits its width. */
  predicate Fits(keys: seq<KeyField>, r: Record) {
    forall k :: k in keys ==> Get(r, k.name) < Pow2(8 * k.size)
  }

  lemma {:induction false} BytesInjective(v: nat, w: nat, n: nat)
    requires v < Pow2(8 * n) && w < Pow2(8 * n) && ToBytes(v, n) == ToBytes(w, n)
    ensures v == w
  {
    if n > 0 {
      assert ToBytes(v, n)[0] == ToBytes(w, n)[0];
      assert ToBytes(v, n)[1..] == ToBytes(v / 256, n - 1);
      assert ToBytes(w, n)[1..] == ToBytes(w / 256, n - 1);
      Pow2Add(8, 8 * (n - 1));
      assert Pow2(8) == 256;
      BytesInjective(v / 256, w / 256, n - 1);
    }
  }

  lemma {:induction false} KeyLength(keys: seq<KeyField>, r: Record)
    ensures |KeyOf(keys, r)| == KeySize(keys)
  {
    if keys != [] { KeyLength(keys[..|keys| - 1], r); }
  }

  /** Byte equality of two keys is equality of every key field: no two different field tuples
      share a concatenation, because every field has a fixed size. */
  lemma {:induction false} KeyEqualIff(keys: seq<KeyField>, r: Record, s: Record)
    requires Fits(keys, r) && Fits(keys, s)
    ensures KeyOf(keys, r) == KeyOf(keys, s) <==> forall k :: k in keys ==> Get(r, k.name) == Get(s, k.name)
  {
    if keys != [] {
      var init, k := keys[..|keys| - 1], keys[|keys| - 1];
      assert keys == init + [k];
      KeyEqualIff(init, r, s);
      KeyLength(init, r);
      KeyLength(init, s);
      var br, bs := ToBytes(Get(r, k.name), k.size), ToBytes(Get(s, k.name), k.size);
      var n := KeySize(init);
      assert KeyOf(keys, r)[..n] == KeyOf(init, r) && KeyOf(keys, r)[n..] == br;
      assert KeyOf(keys, s)[..n] == KeyOf(init, s) && KeyOf(keys, s)[n..] == bs;
      if br == bs { BytesInjective(Get(r, k.name), Get(s, k.name), k.size); }
    }
  }

  /** The key buffer: fields are copied one behind the other into a preallocated array. */
  class Key {
    var data: array<Byte>
    var dataLength: nat

    ghost predicate Valid()
      reads this
    {
      dataLength <= data.Length
    }

    ghost function Contents(): seq<Byte>
      requires Valid()
      reads this, data
    {
      data[..dataLength]
    }

    constructor (keySize: nat)
      ensures Valid() && fresh(data) && data.Length == keySize + 1 && Contents() == []
    {
      data := new Byte[keySize + 1];
      dataLength := 0;
    }

    method AddField(src: seq<Byte>)
      requires Valid() && dataLength + |src| <= data.Length
      modifies this`dataLength, data
      ensures Valid() && data == old(data)
      ensures Contents() == old(Contents()) + src
    {
      for i := 0 to |src|
        invariant data == old(data) && dataLength == old(dataLength)
        invariant data[..dataLength + i] == old(Contents()) + src[..i]
      {
        data[dataLength + i] := src[i];
        assert data[..dataLength + i + 1] == data[..dataLength + i] + [src[i]];
        assert src[..i + 1] == src[..i] + [src[i]];
      }
      dataLength := dataLength + |src|;
      assert src[..|src|] == src;
    }

    /** The comparison looks at dataLength bytes only. */
    method Equals(other: Key) returns (equal: bool)
      requires Valid() && other.Valid() && dataLength == other.dataLength
      ensures equal <==> Contents() == other.Contents()
    {
      for i := 0 to dataLength
        invariant data[..i] == other.data[..i]
      {
        if data[i] != other.data[i] {
          assert Contents()[i] != other.Contents()[i];
          return false;
        }
        assert data[..i + 1] == data[..i] + [data[i]];
        assert other.data[..i + 1] == other.data[..i] + [other.data[i]];
      }
      equal := true;
    }
  }

  /** Building the key of a record field by field. */
  method MakeKey(keys: seq<KeyField>, r: Record) returns (key: Key)
    ensures fresh(key) && fresh(key.data) && key.Valid() && key.Contents() == KeyOf(keys, r)
  {
    key := new Key(KeySize(keys));
    for i := 0 to |keys|
      invariant fresh(key) && fresh(key.data) && key.Valid()
      invariant key.data.Length == KeySize(keys) + 1
      invariant key.Contents() == KeyOf(keys[..i], r)
    {
      KeySizePrefix(keys, i + 1);
      KeyLength(keys[..i], r);
      assert keys[..i + 1][..i] == keys[..i];
      key.AddField(ToBytes(Get(r, keys[i].name), keys[i].size));
    }
    assert keys[..|keys|] == keys;
  }

  lemma {:induction false} KeySizePrefix(keys: seq<KeyField>, n: nat)
    requires n <= |keys|
    ensures KeySize(keys[..n]) <= KeySize(keys)
    decreases |keys|
  {
    if n < |keys| {
      assert keys[..|keys| - 1][..n] == keys[..n];
      KeySizePrefix(keys[..|keys| - 1], n);
    } else {
      assert keys[..n] == keys;
    }
  }
}
