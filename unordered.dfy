/**
 * The hash table behind Pastel's unordered sets and maps
 * (pastel/sys/unorderedbase.hpp).
 *
 * All values live in one list.  A bucket is either empty or a run
 * [first, last] of that list: the values whose key hashes to the bucket
 * sit next to each other.  Here the list is a sequence, an iterator is a
 * position in it (the end iterator is |values|), and a bucket holds the
 * positions of its first and last value.  Inserting into a non-empty
 * bucket puts the value in front of the bucket's run.
 */
module UnorderedTables {

  datatype Bucket = Empty | Run(first: nat, last: nat)

  /** bucket(): the bucket a key hashes to among n buckets. */
  function SlotOf<K>(hash: K -> nat, k: K, n: nat): (r: nat)
    requires n > 0
    ensures r < n
  {
    hash(k) % n
  }

  /** The values in positions [first, last] are exactly those in bucket b. */
  ghost predicate Holds<K, V>(values: seq<V>, bucket: Bucket, b: nat, n: nat, hash: K -> nat, keyOf: V -> K)
    requires n > 0
  {
    match bucket
    case Empty =>
      forall i :: 0 <= i < |values| ==> SlotOf(hash, keyOf(values[i]), n) != b
    case Run(first, last) =>
      && first <= last < |values|
      && forall i :: 0 <= i < |values| ==> (first <= i <= last <==> SlotOf(hash, keyOf(values[i]), n) == b)
  }

  /** Every bucket records the run of its values. */
  ghost predicate Laid<K, V>(values: seq<V>, buckets: seq<Bucket>, hash: K -> nat, keyOf: V -> K) {
    && |buckets| > 0
    && forall b :: 0 <= b < |buckets| ==> Holds(values, buckets[b], b, |buckets|, hash, keyOf)
  }

  /** No two values share a key. */
  ghost predicate Unique<K, V>(values: seq<V>, keyOf: V -> K) {
    forall i, j :: 0 <= i < j < |values| ==> keyOf(values[i]) != keyOf(values[j])
  }

  ghost function Keys<K, V>(values: seq<V>, keyOf: V -> K): set<K> {
    set v | v in values :: keyOf(v)
  }

  /** The bucket of a run after a value is inserted at position `at`. */
  function ShiftUp(bucket: Bucket, at: nat): Bucket {
    match bucket
    case Empty => Empty
    case Run(first, last) => Run(if first >= at then first + 1 else first, if last >= at then last + 1 else last)
  }

  /** The bucket of a run after the value at position `at` is removed. */
  function ShiftDown(bucket: Bucket, at: nat): Bucket {
    match bucket
    case Empty => Empty
    case Run(first, last) => Run(if first > at then first - 1 else first, if last > at then last - 1 else last)
  }

  /**
   * Files a value into its bucket: appended to the list when the bucket is
   * empty, otherwise inserted in front of the bucket's run (the list
   * insertion of insert() and the splicing of rehash()).
   */
  function Put<K, V>(values: seq<V>, buckets: seq<Bucket>, hash: K -> nat, keyOf: V -> K, v: V): (r: (seq<V>, seq<Bucket>))
    requires Laid(values, buckets, hash, keyOf)
    ensures |r.1| == |buckets| && |r.0| == |values| + 1
    ensures multiset(r.0) == multiset(values) + multiset{v}
  {
    var b := SlotOf(hash, keyOf(v), |buckets|);
    assert Holds(values, buckets[b], b, |buckets|, hash, keyOf);
    match buckets[b]
    case Empty =>
      (values + [v], buckets[b := Run(|values|, |values|)])
    case Run(first, last) =>
      assert values == values[..first] + values[first..];
      (values[..first] + [v] + values[first..],
       seq(|buckets|, c requires 0 <= c < |buckets| => if c == b then Run(first, last + 1) else ShiftUp(buckets[c], first)))
  }

  /** The position Put gives the value. */
  function PutPosition<K, V>(values: seq<V>, buckets: seq<Bucket>, hash: K -> nat, keyOf: V -> K, v: V): (p: nat)
    requires Laid(values, buckets, hash, keyOf)
    ensures p <= |values|
  {
    match buckets[SlotOf(hash, keyOf(v), |buckets|)]
    case Empty => |values|
    case Run(first, _) => first
  }

  /** Two different buckets' runs do not overlap: one ends before the other starts. */
  lemma RunsApart<K, V>(values: seq<V>, buckets: seq<Bucket>, hash: K -> nat, keyOf: V -> K, b: nat, c: nat)
    requires Laid(values, buckets, hash, keyOf)
    requires b < |buckets| && c < |buckets| && b != c
    requires buckets[b].Run? && buckets[c].Run?
    ensures buckets[c].last < buckets[b].first || buckets[b].last < buckets[c].first
  {
    var n := |buckets|;
    assert Holds(values, buckets[b], b, n, hash, keyOf);
    assert Holds(values, buckets[c], c, n, hash, keyOf);
    assert SlotOf(hash, keyOf(values[buckets[b].first]), n) == b;
    assert SlotOf(hash, keyOf(values[buckets[c].first]), n) == c;
  }

  /** Put keeps every bucket's run, and the value lands at PutPosition. */
  lemma PutLaid<K, V>(values: seq<V>, buckets: seq<Bucket>, hash: K -> nat, keyOf: V -> K, v: V)
    requires Laid(values, buckets, hash, keyOf)
    ensures var r := Put(values, buckets, hash, keyOf, v);
      && Laid(r.0, r.1, hash, keyOf)
      && r.0[PutPosition(values, buckets, hash, keyOf, v)] == v
  {
    var n := |buckets|;
    var b := SlotOf(hash, keyOf(v), n);
    var r := Put(values, buckets, hash, keyOf, v);
    assert Holds(values, buckets[b], b, n, hash, keyOf);
    forall c | 0 <= c < n
      ensures Holds(r.0, r.1[c], c, n, hash, keyOf)
    {
      assert Holds(values, buckets[c], c, n, hash, keyOf);
      if buckets[b].Run? && c != b && buckets[c].Run? {
        RunsApart(values, buckets, hash, keyOf, b, c);
      }
      PutHolds(values, buckets, hash, keyOf, v, c);
    }
  }

  /** One bucket of PutLaid. */
  lemma PutHolds<K, V>(values: seq<V>, buckets: seq<Bucket>, hash: K -> nat, keyOf: V -> K, v: V, c: nat)
    requires Laid(values, buckets, hash, keyOf) && c < |buckets|
    requires var b := SlotOf(hash, keyOf(v), |buckets|);
      && Holds(values, buckets[b], b, |buckets|, hash, keyOf)
      && Holds(values, buckets[c], c, |buckets|, hash, keyOf)
      && (buckets[b].Run? && c != b && buckets[c].Run? ==>
            buckets[c].last < buckets[b].first || buckets[b].last < buckets[c].first)
    ensures var r := Put(values, buckets, hash, keyOf, v);
      Holds(r.0, r.1[c], c, |buckets|, hash, keyOf)
  {
    var n := |buckets|;
    var b := SlotOf(hash, keyOf(v), n);
    var r := Put(values, buckets, hash, keyOf, v);
    match buckets[b]
    case Empty =>
      assert forall i :: 0 <= i < |values| ==> r.0[i] == values[i];
    case Run(f, l) =>
      assert forall i :: 0 <= i < f ==> r.0[i] == values[i];
      assert r.0[f] == v;
      assert forall i :: f < i < |r.0| ==> r.0[i] == values[i - 1];
  }

  /** Removes the value at position `at` and the position from its bucket's run (erase()). */
  function Remove<K, V>(values: seq<V>, buckets: seq<Bucket>, hash: K -> nat, keyOf: V -> K, at: nat): (r: (seq<V>, seq<Bucket>))
    requires Laid(values, buckets, hash, keyOf) && at < |values|
    ensures |r.1| == |buckets| && r.0 == values[..at] + values[at + 1..]
  {
    var b := SlotOf(hash, keyOf(values[at]), |buckets|);
    assert Holds(values, buckets[b], b, |buckets|, hash, keyOf);
    var bucket :=
      if buckets[b].first == buckets[b].last then Empty
      else if at == buckets[b].first then Run(buckets[b].first + 1, buckets[b].last)
      else if at == buckets[b].last then Run(buckets[b].first, buckets[b].last - 1)
      else buckets[b];
    (values[..at] + values[at + 1..],
     seq(|buckets|, c requires 0 <= c < |buckets| => ShiftDown(if c == b then bucket else buckets[c], at)))
  }

  lemma RemoveLaid<K, V>(values: seq<V>, buckets: seq<Bucket>, hash: K -> nat, keyOf: V -> K, at: nat)
    requires Laid(values, buckets, hash, keyOf) && at < |values|
    ensures var r := Remove(values, buckets, hash, keyOf, at);
      Laid(r.0, r.1, hash, keyOf)
  {
    var n := |buckets|;
    var r := Remove(values, buckets, hash, keyOf, at);
    forall c | 0 <= c < n
      ensures Holds(r.0, r.1[c], c, n, hash, keyOf)
    {
      assert Holds(values, buckets[c], c, n, hash, keyOf);
      RemoveHolds(values, buckets, hash, keyOf, at, c);
    }
  }

  /** One bucket of RemoveLaid. */
  lemma RemoveHolds<K, V>(values: seq<V>, buckets: seq<Bucket>, hash: K -> nat, keyOf: V -> K, at: nat, c: nat)
    requires Laid(values, buckets, hash, keyOf) && at < |values| && c < |buckets|
    ensures var r := Remove(values, buckets, hash, keyOf, at);
      Holds(r.0, r.1[c], c, |buckets|, hash, keyOf)
  {
    var n := |buckets|;
    var r := Remove(values, buckets, hash, keyOf, at);
    assert Holds(values, buckets[c], c, n, hash, keyOf);
    assert forall i :: 0 <= i < at ==> r.0[i] == values[i];
    assert forall i :: at <= i < |r.0| ==> r.0[i] == values[i + 1];
  }

  lemma PutUnique<K, V>(values: seq<V>, buckets: seq<Bucket>, hash: K -> nat, keyOf: V -> K, v: V)
    requires Laid(values, buckets, hash, keyOf) && Unique(values, keyOf)
    requires keyOf(v) !in Keys(values, keyOf)
    ensures Unique(Put(values, buckets, hash, keyOf, v).0, keyOf)
  {
    var r := Put(values, buckets, hash, keyOf, v).0;
    forall i, j | 0 <= i < j < |r|
      ensures keyOf(r[i]) != keyOf(r[j])
    {
      assert r[i] in multiset(values) + multiset{v};
      assert r[j] in multiset(values) + multiset{v};
      if r[i] != v && r[j] != v {
        assert r[i] in values && r[j] in values;
        PositionsInPut(values, buckets, hash, keyOf, v, i, j);
      } else if r[i] == v && r[j] == v {
        PositionsInPut(values, buckets, hash, keyOf, v, i, j);
      } else if r[i] == v {
        assert r[j] in values;
      } else {
        assert r[i] in values;
      }
    }
  }

  /** Two positions of Put's result come from two positions of the list or one of them is the new value. */
  lemma PositionsInPut<K, V>(values: seq<V>, buckets: seq<Bucket>, hash: K -> nat, keyOf: V -> K, v: V, i: nat, j: nat)
    requires Laid(values, buckets, hash, keyOf) && Unique(values, keyOf) && keyOf(v) !in Keys(values, keyOf)
    requires i < j < |values| + 1
    ensures keyOf(Put(values, buckets, hash, keyOf, v).0[i]) != keyOf(Put(values, buckets, hash, keyOf, v).0[j])
  {
    var r := Put(values, buckets, hash, keyOf, v).0;
    var at := PutPosition(values, buckets, hash, keyOf, v);
    assert r == values[..at] + [v] + values[at..];
    var i' := if i < at then i else i - 1;
    var j' := if j < at then j else j - 1;
    if i == at {
      assert r[j] == values[j'] && values[j'] in values;
    } else if j == at {
      assert r[i] == values[i'] && values[i'] in values;
    } else {
      assert r[i] == values[i'] && r[j] == values[j'];
    }
  }

  lemma RemoveUnique<K, V>(values: seq<V>, at: nat, keyOf: V -> K)
    requires Unique(values, keyOf) && at < |values|
    ensures Unique(values[..at] + values[at + 1..], keyOf)
  {
    var r := values[..at] + values[at + 1..];
    forall i, j | 0 <= i < j < |r|
      ensures keyOf(r[i]) != keyOf(r[j])
    {
      var i' := if i < at then i else i + 1;
      var j' := if j < at then j else j + 1;
      assert r[i] == values[i'] && r[j] == values[j'];
    }
  }

  /** The positions first, ..., last. */
  ghost function Interval(first: nat, last: nat): (r: set<nat>)
    requires first <= last + 1
    ensures forall i :: i in r <==> first <= i <= last
    ensures |r| == last + 1 - first
    decreases last + 1 - first
  {
    if first == last + 1 then {} else {first} + Interval(first + 1, last)
  }

  class UnorderedBase<K(==), V(==)> {
    /** The key of a value (extractKey_). */
    var keyOf: V -> K
    /** The hash of a key (hasher_). */
    var hash: K -> nat
    var values: seq<V>
    var buckets: seq<Bucket>
    var size: nat
    var maxLoadFactor: real

    ghost predicate Valid()
      reads this
    {
      && size == |values|
      && maxLoadFactor > 0.0
      && Unique(values, keyOf)
      && Laid(values, buckets, hash, keyOf)
    }

    /** UnorderedBase(bucketCount, hasher, ...): an empty table of `bucketCount` empty buckets. */
    constructor (keyOf: V -> K, hash: K -> nat, bucketCount: nat)
      requires bucketCount > 0
      ensures Valid()
      ensures this.keyOf == keyOf && this.hash == hash
      ensures values == [] && |buckets| == bucketCount && maxLoadFactor == 1.0
    {
      this.keyOf, this.hash := keyOf, hash;
      values, size := [], 0;
      buckets := seq(bucketCount, _ => Empty);
      maxLoadFactor := 1.0;
    }

    /** UnorderedBase(const UnorderedBase&): one bucket, then every value of `that` inserted in order. */
    constructor Copy(that: UnorderedBase<K, V>)
      requires that.Valid()
      ensures Valid()
      ensures keyOf == that.keyOf && hash == that.hash && maxLoadFactor == that.maxLoadFactor
      ensures multiset(values) == multiset(that.values)
    {
      keyOf, hash := that.keyOf, that.hash;
      values, size := [], 0;
      buckets := [Empty];
      maxLoadFactor := that.maxLoadFactor;
      new;
      InsertRange(that.values);
    }

    /** bucket(key) */
    function Bucket(k: K): (r: nat)
      reads this
      requires |buckets| > 0
      ensures r < |buckets|
    {
      SlotOf(hash, k, |buckets|)
    }

    function BucketCount(): nat
      reads this
    {
      |buckets|
    }

    /** bucket_size(n): the number of values in bucket n. */
    function BucketSize(n: nat): (r: nat)
      reads this
      requires Valid() && n < |buckets|
      ensures r == |set i: nat | i < |values| && SlotOf(hash, keyOf(values[i]), |buckets|) == n|
    {
      assert Holds(values, buckets[n], n, |buckets|, hash, keyOf);
      var members := set i: nat | i < |values| && SlotOf(hash, keyOf(values[i]), |buckets|) == n;
      match buckets[n]
      case Empty =>
        assert members == {};
        0
      case Run(first, last) =>
        assert members == Interval(first, last);
        last - first + 1
    }

    /** begin(n) and end(n): the positions of bucket n's values. */
    function LocalRange(n: nat): (r: (nat, nat))
      reads this
      requires Valid() && n < |buckets|
      ensures r.0 <= r.1 <= |values|
      ensures forall i :: 0 <= i < |values| ==> (r.0 <= i < r.1 <==> SlotOf(hash, keyOf(values[i]), |buckets|) == n)
    {
      assert Holds(values, buckets[n], n, |buckets|, hash, keyOf);
      match buckets[n]
      case Empty => (|values|, |values|)
      case Run(first, last) => (first, last + 1)
    }

    /** The load factor size / bucket count is at most the maximum load factor. */
    predicate WithinLoad()
      reads this
    {
      size as real <= maxLoadFactor * |buckets| as real
    }

    function LoadFactor(): real
      reads this
      requires |buckets| > 0
    {
      size as real / |buckets| as real
    }

    /** max_load_factor(f) */
    method SetMaxLoadFactor(f: real)
      requires Valid() && f > 0.0
      modifies this
      ensures Valid() && maxLoadFactor == f
      ensures values == old(values) && buckets == old(buckets)
    {
      maxLoadFactor := f;
    }

    function IsEmpty(): (r: bool)
      reads this
      requires Valid()
      ensures r <==> values == []
    {
      size == 0
    }

    /** The scan of a bucket's run for a key, as in find() and insert(). */
    method ScanRun(k: K, first: nat, last: nat) returns (r: nat)
      requires first <= last < |values|
      ensures first <= r <= last + 1
      ensures r <= last ==> keyOf(values[r]) == k
      ensures r == last + 1 ==> forall i :: first <= i <= last ==> keyOf(values[i]) != k
    {
      r := first;
      while r <= last
        invariant first <= r <= last + 1
        invariant forall i :: first <= i < r ==> keyOf(values[i]) != k
      {
        if keyOf(values[r]) == k {
          return;
        }
        r := r + 1;
      }
    }

    /** find(key): the position of the value with the key, or the end position. */
    method Find(k: K) returns (r: nat)
      requires Valid()
      ensures r <= |values|
      ensures r < |values| ==> keyOf(values[r]) == k
      ensures r == |values| <==> k !in Keys(values, keyOf)
    {
      var b := Bucket(k);
      assert Holds(values, buckets[b], b, |buckets|, hash, keyOf);
      match buckets[b]
      case Empty =>
        r := |values|;
      case Run(first, last) =>
        r := ScanRun(k, first, last);
        if r == last + 1 {
          r := |values|;
        }
      NotInKeys(k);
    }

    /** A key whose bucket's run lacks it is absent. */
    lemma NotInKeys(k: K)
      requires Valid()
      ensures var b := Bucket(k);
        (buckets[b].Empty? || forall i :: buckets[b].first <= i <= buckets[b].last ==> keyOf(values[i]) != k)
        ==> k !in Keys(values, keyOf)
    {
      var b := Bucket(k);
      assert Holds(values, buckets[b], b, |buckets|, hash, keyOf);
      if k in Keys(values, keyOf) {
        var v :| v in values && keyOf(v) == k;
        var i :| 0 <= i < |values| && values[i] == v;
        assert SlotOf(hash, keyOf(values[i]), |buckets|) == b;
      }
    }

    /** count(key): 1 if a value has the key, otherwise 0. */
    method Count(k: K) returns (r: nat)
      requires Valid()
      ensures r <= 1
      ensures r == 1 <==> k in Keys(values, keyOf)
    {
      var at := Find(k);
      r := if at == |values| then 0 else 1;
    }

    /** equal_range(key): the positions holding the key, empty at the end when it is absent. */
    method EqualRange(k: K) returns (first: nat, last: nat)
      requires Valid()
      ensures first <= last <= |values|
      ensures forall i :: 0 <= i < |values| ==> (first <= i < last <==> keyOf(values[i]) == k)
    {
      first := Find(k);
      last := if first == |values| then first else first + 1;
      forall i | 0 <= i < |values| && keyOf(values[i]) == k
        ensures first <= i < last
      {
        assert values[i] in values;
      }
    }

    /**
     * insert(value): returns the position of the value with the value's key
     * and whether it was inserted; a new value may make the table rehash to
     * at least twice the bucket count.
     */
    method Insert(v: V) returns (at: nat, inserted: bool)
      requires Valid()
      modifies this
      ensures Valid()
      ensures at < |values| && keyOf(values[at]) == keyOf(v)
      ensures inserted <==> keyOf(v) !in Keys(old(values), keyOf)
      ensures !inserted ==> values == old(values) && buckets == old(buckets)
      ensures inserted ==> values[at] == v && multiset(values) == multiset(old(values)) + multiset{v}
      ensures inserted ==> WithinLoad()
      ensures keyOf == old(keyOf) && hash == old(hash) && maxLoadFactor == old(maxLoadFactor)
    {
      var found := Find(keyOf(v));
      if found < |values| {
        assert values[found] in values;
        return found, false;
      }
      at := InsertNew(v);
      inserted := true;
    }

    /** The insertion of a value with a new key, and the rehash it may call for. */
    method InsertNew(v: V) returns (at: nat)
      requires Valid() && keyOf(v) !in Keys(values, keyOf)
      modifies this
      ensures Valid()
      ensures at < |values| && values[at] == v
      ensures multiset(values) == multiset(old(values)) + multiset{v}
      ensures WithinLoad()
      ensures keyOf == old(keyOf) && hash == old(hash) && maxLoadFactor == old(maxLoadFactor)
    {
      at := Store(v);
      if !WithinLoad() {
        Rehash(2 * |buckets|);
        assert v in multiset(values);
        at := Find(keyOf(v));
        FoundIsValue(v, at);
      }
    }

    /** The list insertion and bucket update of insert() for a new key. */
    method Store(v: V) returns (at: nat)
      requires Valid() && keyOf(v) !in Keys(values, keyOf)
      modifies this
      ensures keyOf == old(keyOf) && hash == old(hash) && maxLoadFactor == old(maxLoadFactor)
      ensures Valid()
      ensures (values, buckets) == Put(old(values), old(buckets), hash, keyOf, v)
      ensures at < |values| && values[at] == v
      ensures multiset(values) == multiset(old(values)) + multiset{v}
    {
      at := PutPosition(values, buckets, hash, keyOf, v);
      PutLaid(values, buckets, hash, keyOf, v);
      PutUnique(values, buckets, hash, keyOf, v);
      var r := Put(values, buckets, hash, keyOf, v);
      values, buckets := r.0, r.1;
      size := size + 1;
    }

    /** The value whose key is found after a rehash is the inserted one. */
    lemma FoundIsValue(v: V, at: nat)
      requires Valid() && v in values && at < |values| && keyOf(values[at]) == keyOf(v)
      ensures values[at] == v
    {
      var i :| 0 <= i < |values| && values[i] == v;
      assert !(i < at || at < i);
    }

    /** insert(first, last): inserts the values in order. */
    method InsertRange(s: seq<V>)
      requires Valid()
      modifies this
      ensures Valid()
      ensures Keys(values, keyOf) == Keys(old(values), keyOf) + Keys(s, keyOf)
      ensures forall v :: v in values ==> v in old(values) || v in s
      ensures Unique(s, keyOf) && Keys(old(values), keyOf) == {} ==> multiset(values) == multiset(s)
      ensures keyOf == old(keyOf) && hash == old(hash) && maxLoadFactor == old(maxLoadFactor)
    {
      assert values != [] ==> keyOf(values[0]) in Keys(values, keyOf);
      for i := 0 to |s|
        invariant Valid()
        invariant keyOf == old(keyOf) && hash == old(hash) && maxLoadFactor == old(maxLoadFactor)
        invariant Keys(values, keyOf) == Keys(old(values), keyOf) + Keys(s[..i], keyOf)
        invariant forall v :: v in values ==> v in old(values) || v in s[..i]
        invariant Unique(s, keyOf) && Keys(old(values), keyOf) == {} ==> multiset(values) == multiset(s[..i])
      {
        ghost var before := values;
        var at, inserted := Insert(s[i]);
        assert s[..i + 1] == s[..i] + [s[i]];
        InsertedKeys(before, s[..i], s[i], inserted, at);
        if Unique(s, keyOf) && Keys(old(values), keyOf) == {} {
          NewKey(s, i);
        }
      }
      assert s[..|s|] == s;
    }

    /** The keys after one insertion of a range. */
    lemma InsertedKeys(before: seq<V>, done: seq<V>, v: V, inserted: bool, at: nat)
      requires Valid()
      requires at < |values| && keyOf(values[at]) == keyOf(v)
      requires inserted ==> multiset(values) == multiset(before) + multiset{v}
      requires !inserted ==> values == before
      ensures Keys(values, keyOf) == Keys(before, keyOf) + {keyOf(v)}
      ensures Keys(done + [v], keyOf) == Keys(done, keyOf) + {keyOf(v)}
      ensures forall u :: u in values ==> u in before || u == v
    {
      assert values[at] in values;
      forall u | u in before
        ensures u in values
      {
        if inserted {
          assert u in multiset(values);
        }
      }
      if inserted {
        forall u | u in values
          ensures u in before || u == v
        {
          assert u in multiset(values);
        }
      }
      forall k | k in Keys(values, keyOf)
        ensures k in Keys(before, keyOf) || k == keyOf(v)
      {
        var u :| u in values && keyOf(u) == k;
        if inserted {
          assert u in multiset(values);
        }
      }
      assert forall u :: u in done + [v] <==> u in done || u == v;
    }

    /** A value of a range of distinct keys has a key no earlier value has. */
    lemma NewKey(s: seq<V>, i: nat)
      requires Unique(s, keyOf) && i < |s|
      ensures keyOf(s[i]) !in Keys(s[..i], keyOf)
    {
      forall u | u in s[..i]
        ensures keyOf(u) != keyOf(s[i])
      {
        var j :| 0 <= j < i && s[..i][j] == u;
      }
    }

    /**
     * rehash(bucketCount): at least `bucketCount` buckets and more than
     * size / maxLoadFactor of them; every value is spliced, in list order,
     * into the run of its new bucket.
     */
    method Rehash(bucketCount: nat)
      requires Valid() && bucketCount > 0
      modifies this
      ensures Valid()
      ensures multiset(values) == multiset(old(values))
      ensures |buckets| >= bucketCount
      ensures WithinLoad()
      ensures keyOf == old(keyOf) && hash == old(hash) && maxLoadFactor == old(maxLoadFactor)
    {
      var count := NewBucketCount(bucketCount, size, maxLoadFactor);
      var temp, rebuilt := Rebuild(values, count, hash, keyOf);
      values, buckets := temp, rebuilt;
    }

    /** clear(): no values, one empty bucket, maximum load factor 1. */
    method Clear()
      modifies this
      ensures Valid()
      ensures values == [] && buckets == [Empty] && size == 0 && maxLoadFactor == 1.0
      ensures keyOf == old(keyOf) && hash == old(hash)
    {
      size, values := 0, [];
      buckets := [Empty];
      maxLoadFactor := 1.0;
    }

    /** swap(): exchanges the whole contents of two tables. */
    method Swap(that: UnorderedBase<K, V>)
      modifies this, that
      ensures keyOf == old(that.keyOf) && that.keyOf == old(keyOf)
      ensures hash == old(that.hash) && that.hash == old(hash)
      ensures values == old(that.values) && that.values == old(values)
      ensures buckets == old(that.buckets) && that.buckets == old(buckets)
      ensures size == old(that.size) && that.size == old(size)
      ensures maxLoadFactor == old(that.maxLoadFactor) && that.maxLoadFactor == old(maxLoadFactor)
    {
      keyOf, that.keyOf := that.keyOf, keyOf;
      hash, that.hash := that.hash, hash;
      values, that.values := that.values, values;
      buckets, that.buckets := that.buckets, buckets;
      size, that.size := that.size, size;
      maxLoadFactor, that.maxLoadFactor := that.maxLoadFactor, maxLoadFactor;
    }

    /** erase(position): removes the value there and returns the position of the next one. */
    method Erase(at: nat) returns (next: nat)
      requires Valid() && at < |values|
      modifies this
      ensures Valid()
      ensures values == old(values[..at]) + old(values[at + 1..]) && next == at
      ensures keyOf == old(keyOf) && hash == old(hash) && maxLoadFactor == old(maxLoadFactor)
    {
      RemoveLaid(values, buckets, hash, keyOf, at);
      RemoveUnique(values, at, keyOf);
      var r := Remove(values, buckets, hash, keyOf, at);
      values, buckets := r.0, r.1;
      size := size - 1;
      next := at;
    }

    /** erase(key): 1 and the value removed when the key is present, otherwise 0 and no change. */
    method EraseKey(k: K) returns (n: nat)
      requires Valid()
      modifies this
      ensures Valid()
      ensures n == (if k in Keys(old(values), keyOf) then 1 else 0)
      ensures n == 0 ==> values == old(values) && buckets == old(buckets)
      ensures |values| == |old(values)| - n
      ensures forall v :: v in values <==> v in old(values) && keyOf(v) != k
      ensures keyOf == old(keyOf) && hash == old(hash) && maxLoadFactor == old(maxLoadFactor)
    {
      var at := Find(k);
      if at == |values| {
        return 0;
      }
      ghost var before := values;
      var _ := Erase(at);
      ErasedKey(before, at, k);
      n := 1;
    }

    lemma ErasedKey(before: seq<V>, at: nat, k: K)
      requires Unique(before, keyOf) && at < |before| && keyOf(before[at]) == k
      requires values == before[..at] + before[at + 1..]
      ensures forall v :: v in values <==> v in before && keyOf(v) != k
    {
      forall v | v in before && keyOf(v) != k
        ensures v in values
      {
        var i :| 0 <= i < |before| && before[i] == v;
        if i < at {
          assert values[i] == v;
        } else {
          assert i != at;
          assert values[i - 1] == v;
        }
      }
      forall v | v in values
        ensures v in before && keyOf(v) != k
      {
        var i :| 0 <= i < |values| && values[i] == v;
        var i' := if i < at then i else i + 1;
        assert before[i'] == v && i' != at;
      }
    }

    /** erase(first, last): removes the values in [first, last) one at a time and returns the position after them. */
    method EraseRange(first: nat, last: nat) returns (r: nat)
      requires Valid() && first <= last <= |values|
      modifies this
      ensures Valid()
      ensures values == old(values[..first]) + old(values[last..]) && r == first
      ensures keyOf == old(keyOf) && hash == old(hash) && maxLoadFactor == old(maxLoadFactor)
    {
      ghost var original := values;
      var i := first;
      var remaining: nat := last - first;
      assert values == values[..first] + values[first..];
      while remaining > 0
        invariant Valid() && i == first && remaining <= last - first && last <= |original|
        invariant values == original[..first] + original[last - remaining..]
        invariant keyOf == old(keyOf) && hash == old(hash) && maxLoadFactor == old(maxLoadFactor)
      {
        i := Erase(i);
        remaining := remaining - 1;
      }
      r := i;
    }
  }

  /**
   * The bucket count of rehash(): the larger of the requested count and
   * the truncation of size / maxLoadFactor + 1.
   */
  method NewBucketCount(bucketCount: nat, size: nat, maxLoadFactor: real) returns (count: nat)
    requires bucketCount > 0 && maxLoadFactor > 0.0
    ensures count >= bucketCount
    ensures size as real < maxLoadFactor * count as real
  {
    var bound := size as real / maxLoadFactor + 1.0;
    count := if bucketCount as real >= bound then bucketCount else bound.Floor;
    assert count as real > size as real / maxLoadFactor;
    DividedBelow(size as real, maxLoadFactor, count as real);
  }

  lemma DividedBelow(s: real, f: real, c: real)
    requires f > 0.0 && c > s / f
    ensures s < f * c
  {
    assert f * c > f * (s / f);
  }

  /** The splice loop of rehash(): files the values, in order, into `count` new buckets. */
  method Rebuild<K, V>(values: seq<V>, count: nat, hash: K -> nat, keyOf: V -> K)
    returns (temp: seq<V>, buckets: seq<Bucket>)
    requires count > 0 && Unique(values, keyOf)
    ensures |buckets| == count && Laid(temp, buckets, hash, keyOf) && Unique(temp, keyOf)
    ensures multiset(temp) == multiset(values) && |temp| == |values|
  {
    temp, buckets := [], seq(count, _ => Empty);
    for i := 0 to |values|
      invariant |buckets| == count && Laid(temp, buckets, hash, keyOf) && Unique(temp, keyOf)
      invariant |temp| == i
      invariant multiset(temp) == multiset(values[..i])
    {
      FreshKey(values, i, temp, keyOf);
      PutLaid(temp, buckets, hash, keyOf, values[i]);
      PutUnique(temp, buckets, hash, keyOf, values[i]);
      var r := Put(temp, buckets, hash, keyOf, values[i]);
      temp, buckets := r.0, r.1;
      assert values[..i + 1] == values[..i] + [values[i]];
    }
    assert values[..|values|] == values;
  }

  lemma FreshKey<K, V>(values: seq<V>, i: nat, temp: seq<V>, keyOf: V -> K)
    requires Unique(values, keyOf) && i < |values| && multiset(temp) == multiset(values[..i])
    ensures keyOf(values[i]) !in Keys(temp, keyOf)
  {
    forall u | u in temp
      ensures keyOf(u) != keyOf(values[i])
    {
      assert u in multiset(values[..i]);
      var j :| 0 <= j < i && values[..i][j] == u;
    }
  }
}
