/**
 The two utilities of the crate's `util` module: `SafeGenerator`, a wrapping
 unsigned counter, and `CacheStore`, a time-stamped table from a key to a list
 of buffers. The wall clock the source reads (`SystemTime::now()`) is an
 argument `now` of the methods that stamp entries.
 */
module Util {
  import opened Wrappers

  function Pow2(n: nat): (r: nat)
    ensures r > n
  {
    if n == 0 then 1 else 2 * Pow2(n - 1)
  }

  lemma {:induction false} Pow2Add(a: nat, b: nat)
    ensures Pow2(a + b) == Pow2(a) * Pow2(b)
    decreases a
  {
    if a > 0 {
      Pow2Add(a - 1, b);
      calc {
        Pow2(a + b);
        2 * Pow2(a - 1 + b);
        2 * (Pow2(a - 1) * Pow2(b));
        { MulAssoc(2, Pow2(a - 1), Pow2(b)); }
        (2 * Pow2(a - 1)) * Pow2(b);
        Pow2(a) * Pow2(b);
      }
    }
  }

  lemma MulAssoc(x: int, y: int, z: int)
    ensures x * (y * z) == (x * y) * z
  {
  }

  lemma Pow2Of8()
    ensures Pow2(8) == 0x100
  {
  }

  /** The unsigned integer types `SafeGenerator` is instantiated at; `usize` is taken to be 64 bits wide. */
  datatype Width = U8 | U16 | U32 | U64 | U128 | Usize {

    function Bits(): nat {
      match this
      case U8 => 8
      case U16 => 16
      case U32 => 32
      case U64 => 64
      case U128 => 128
      case Usize => 64
    }

    /** The number of values of the type, 2^Bits(). */
    function Modulus(): nat {
      Pow2(Bits())
    }
  }

  /** Each width's modulus is one more than the Rust type's `MAX`. */
  lemma ModulusValues()
    ensures U8.Modulus() == 0x100
    ensures U16.Modulus() == 0x1_0000
    ensures U32.Modulus() == 0x1_0000_0000
    ensures U64.Modulus() == Usize.Modulus() == 0x1_0000_0000_0000_0000
    ensures U128.Modulus() == 0x1_0000_0000_0000_0000_0000_0000_0000_0000
  {
    Pow2Of8();
    Pow2Add(8, 8);
    assert Pow2(16) == 0x1_0000;
    Pow2Add(16, 16);
    assert Pow2(32) == 0x1_0000_0000;
    Pow2Add(32, 32);
    assert Pow2(64) == 0x1_0000_0000_0000_0000;
    Pow2Add(64, 64);
    assert Pow2(128) == 0x1_0000_0000_0000_0000_0000_0000_0000_0000;
  }

  /** `wrapping_add` on a w-bit unsigned value: the sum reduced modulo 2^w. */
  function WrappingAdd(w: Width, x: nat, y: nat): (r: nat)
    requires x < w.Modulus() && y < w.Modulus()
    ensures r < w.Modulus()
    ensures x + y < w.Modulus() ==> r == x + y
    ensures x + y >= w.Modulus() ==> r == x + y - w.Modulus()
  {
    var m := w.Modulus();
    if x + y < m then
      ModUnique(x + y, 0, x + y, m);
      (x + y) % m
    else
      ModUnique(x + y, 1, x + y - m, m);
      (x + y) % m
  }

  /** The counter's value after `k` calls of `next` from `start`. */
  function Advanced(w: Width, start: nat, k: nat): (r: nat)
    requires start < w.Modulus()
    ensures r < w.Modulus()
  {
    if k == 0 then start else WrappingAdd(w, Advanced(w, start, k - 1), 1)
  }

  /** At the largest value of the type, `next` wraps around to 0 instead of overflowing. */
  lemma NextWrapsAtMax(w: Width)
    ensures WrappingAdd(w, w.Modulus() - 1, 1) == 0
  {
  }

  /** `k` calls of `next` on a fresh counter leave it at k mod 2^w. */
  lemma {:induction false} AdvancedFromZero(w: Width, k: nat)
    ensures Advanced(w, 0, k) == k % w.Modulus()
  {
    var m := w.Modulus();
    if k == 0 {
      ModUnique(0, 0, 0, m);
    } else {
      AdvancedFromZero(w, k - 1);
      assert Advanced(w, 0, k) == WrappingAdd(w, (k - 1) % m, 1);
      ModSucc(k - 1, m);
    }
  }

  /** The first `next` on a fresh counter returns 1, not 0. */
  lemma FirstNextIsOne(w: Width)
    ensures Advanced(w, 0, 1) == 1
  {
  }

  lemma MulNonNegative(d: int, m: int)
    requires d >= 0 && m > 0
    ensures d * m >= 0
  {
  }

  /** Euclidean remainder is unique: a == q * m + r with 0 <= r < m forces a % m == r. */
  lemma ModUnique(a: int, q: int, r: int, m: int)
    requires 0 < m && 0 <= r < m && a == q * m + r
    ensures a % m == r
  {
    var d := q - a / m;
    assert a == (a / m) * m + a % m;
    assert d * m == a % m - r;
    if d >= 1 {
      MulNonNegative(d - 1, m);
      assert false;
    }
    if d <= -1 {
      MulNonNegative(-d - 1, m);
      assert false;
    }
  }

  /** Adding one to a number advances its remainder by one, wrapping from m - 1 to 0. */
  lemma ModSucc(j: nat, m: nat)
    requires m > 0
    ensures (j + 1) % m == if j % m + 1 < m then j % m + 1 else 0
  {
    assert j == (j / m) * m + j % m;
    if j % m + 1 < m {
      ModUnique(j + 1, j / m, j % m + 1, m);
    } else {
      ModUnique(j + 1, j / m + 1, 0, m);
    }
  }

  /** `SafeGenerator<T>`: a counter starting at the type's default, 0. */
  class SafeGenerator {
    const width: Width
    var sequence: nat

    ghost predicate Valid()
      reads this
    {
      sequence < width.Modulus()
    }

    /** `SafeGenerator::new`: the counter holds the type's default value. */
    constructor (w: Width)
      ensures Valid()
      ensures width == w && sequence == 0
    {
      width := w;
      sequence := 0;
    }

    /** `next`: wrapping increment, then return the new value. */
    method Next() returns (r: nat)
      requires Valid()
      modifies this
      ensures Valid()
      ensures sequence == WrappingAdd(width, old(sequence), 1)
      ensures r == sequence
    {
      sequence := (sequence + 1) % width.Modulus();
      r := sequence;
    }

    /** `get`: the current value, read without changing the counter. */
    function Get(): (r: nat)
      reads this
      requires Valid()
      ensures r < width.Modulus()
    {
      sequence
    }
  }

  /** The source's `SystemTime`, abstracted to a number. */
  type Time = nat

  /** The value a `CacheStore` keeps per key: the time the key was first added and its buffers. */
  datatype Entry<V> = Entry(time: Time, buffers: seq<V>)

  /**
   The table after `add_bulk(key, buffers)` at time `now`: a new key gets an
   entry stamped `now`; an existing key keeps its stamp and has `buffers`
   appended to its list; every other key is untouched.
   */
  function AddedBulk<K, V>(m: map<K, Entry<V>>, key: K, now: Time, buffers: seq<V>): (r: map<K, Entry<V>>)
    ensures r.Keys == m.Keys + {key}
    ensures forall k :: k in m && k != key ==> r[k] == m[k]
    ensures key in m ==> r[key] == Entry(m[key].time, m[key].buffers + buffers)
    ensures key !in m ==> r[key] == Entry(now, buffers)
  {
    var e := if key in m then m[key] else Entry(now, []);
    m[key := Entry(e.time, e.buffers + buffers)]
  }

  /** The (key, time, buffers) triples of a table, the unordered content `flush` hands back. */
  ghost function Entries<K, V>(m: map<K, Entry<V>>): set<(K, Time, seq<V>)> {
    set k | k in m :: (k, m[k].time, m[k].buffers)
  }

  /** Removing one key takes exactly its triple out of `Entries`. */
  lemma EntriesRemove<K, V>(m: map<K, Entry<V>>, key: K)
    requires key in m
    ensures Entries(m) == Entries(m - {key}) + {(key, m[key].time, m[key].buffers)}
    ensures (key, m[key].time, m[key].buffers) !in Entries(m - {key})
  {
    var t := (key, m[key].time, m[key].buffers);
    forall e | e in Entries(m) ensures e in Entries(m - {key}) + {t} {
      var k :| k in m && e == (k, m[k].time, m[k].buffers);
      if k != key {
        assert k in m - {key};
      }
    }
  }

  /** A key has a triple in `Entries` exactly when it is in the table. */
  lemma EntriesKeys<K, V>(m: map<K, Entry<V>>, key: K)
    ensures key in m <==> exists e :: e in Entries(m) && e.0 == key
  {
    if key in m {
      assert (key, m[key].time, m[key].buffers) in Entries(m);
    }
  }

  /** There is one triple per key: no two entries of a flush share a key. */
  lemma {:induction false} EntriesCard<K, V>(m: map<K, Entry<V>>)
    ensures |Entries(m)| == |m|
    decreases |m|
  {
    if |m| > 0 {
      var key :| key in m;
      EntriesRemove(m, key);
      EntriesCard(m - {key});
    } else {
      assert m == map[];
      assert Entries(m) == {};
    }
  }

  /** The triples determine the table: flushing loses nothing that could tell two tables apart. */
  lemma EntriesDetermine<K, V>(m1: map<K, Entry<V>>, m2: map<K, Entry<V>>)
    requires Entries(m1) == Entries(m2)
    ensures m1 == m2
  {
    forall k | k in m1 ensures k in m2 && m2[k] == m1[k] {
      assert (k, m1[k].time, m1[k].buffers) in Entries(m2);
    }
    forall k | k in m2 ensures k in m1 {
      assert (k, m2[k].time, m2[k].buffers) in Entries(m1);
    }
  }

  /** `add` is `add_bulk` with a single buffer. */
  lemma AddIsSingletonBulk<K, V>(m: map<K, Entry<V>>, key: K, now: Time, buffer: V)
    ensures key in m ==> AddedBulk(m, key, now, [buffer])[key] == Entry(m[key].time, m[key].buffers + [buffer])
    ensures key !in m ==> AddedBulk(m, key, now, [buffer])[key] == Entry(now, [buffer])
  {
  }

  /** Two bulk additions to one key are one addition of both lists; the first call's time wins. */
  lemma AddedBulkTwice<K, V>(m: map<K, Entry<V>>, key: K, t1: Time, t2: Time, xs: seq<V>, ys: seq<V>)
    ensures AddedBulk(AddedBulk(m, key, t1, xs), key, t2, ys) == AddedBulk(m, key, t1, xs + ys)
  {
    var a := AddedBulk(AddedBulk(m, key, t1, xs), key, t2, ys);
    var b := AddedBulk(m, key, t1, xs + ys);
    if key in m {
      assert m[key].buffers + xs + ys == m[key].buffers + (xs + ys);
    }
    assert a.Keys == b.Keys;
  }

  /** Adding buffers under a key and then removing that key leaves the rest of the table as before. */
  lemma AddThenRemove<K, V>(m: map<K, Entry<V>>, key: K, now: Time, buffers: seq<V>)
    ensures AddedBulk(m, key, now, buffers) - {key} == m - {key}
  {
  }

  /** `CacheStore<K, V>`: a table from key to (time first added, buffers). */
  class CacheStore<K(==), V> {
    var store: map<K, Entry<V>>

    /** `CacheStore::new`: an empty table. */
    constructor ()
      ensures store == map[]
    {
      store := map[];
    }

    /** `add`: append one buffer under `key`, stamping `now` if the key is new. */
    method Add(key: K, buffer: V, now: Time)
      modifies this
      ensures store == AddedBulk(old(store), key, now, [buffer])
    {
      var e := if key in store then store[key] else Entry(now, []);
      store := store[key := e.(buffers := e.buffers + [buffer])];
    }

    /** `add_bulk`: append `buffers`, in order, under `key`, stamping `now` if the key is new. */
    method AddBulk(key: K, buffers: seq<V>, now: Time)
      modifies this
      ensures store == AddedBulk(old(store), key, now, buffers)
    {
      var e := if key in store then store[key] else Entry(now, []);
      store := store[key := e.(buffers := e.buffers + buffers)];
    }

    /** `flush`: drain the table, returning every entry once, in no particular order. */
    method Flush() returns (flushed: seq<(K, Time, seq<V>)>)
      modifies this
      ensures store == map[]
      ensures multiset(flushed) == multiset(Entries(old(store)))
      ensures |flushed| == |old(store)|
    {
      var rest := store;
      store := map[];
      flushed := [];
      while |rest| > 0
        invariant multiset(flushed) + multiset(Entries(rest)) == multiset(Entries(old(store)))
          invariant store == map[]
        decreases |rest|
      {
        var key :| key in rest;
        var t := (key, rest[key].time, rest[key].buffers);
        EntriesRemove(rest, key);
        flushed := flushed + [t];
        rest := rest - {key};
      }
      assert rest == map[];
      assert Entries(rest) == {};
      EntriesCard(old(store));
    }

    /** `flush_key`: remove `key`'s entry and return it, or `None` if there was none. */
    method FlushKey(key: K) returns (r: Option<Entry<V>>)
      modifies this
      ensures r.Some? <==> key in old(store)
      ensures r.Some? ==> r.value == old(store)[key]
      ensures store == old(store) - {key}
    {
      if key in store {
        r := Some(store[key]);
      } else {
        r := None;
      }
      store := store - {key};
    }

    /** `has`: whether `key` currently has an entry. */
    function Has(key: K): (b: bool)
      reads this
      ensures b <==> exists e :: e in Entries(store) && e.0 == key
    {
      EntriesKeys(store, key);
      key in store
    }
  }
}
