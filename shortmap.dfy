/** The open-addressing hash map of src/shortmap.c: 16-bit keys, linear
    probing from `key & (cap - 1)`, and a table that doubles and rehashes
    once more than three quarters of it is in use. */
module ShortMap {
  import opened Bits
  import opened Bytes
  import opened Wrappers

  /** `struct shortmap_bucket`: a NULL value is `None` and marks the bucket empty. */
  datatype Bucket<V> = Bucket(key: u16, value: Option<V>)

  /** The number of non-empty buckets. */
  function Count<V>(b: seq<Bucket<V>>): (n: nat)
    ensures n <= |b|
  {
    if |b| == 0 then 0
    else Count(b[..|b| - 1]) + (if b[|b| - 1].value.Some? then 1 else 0)
  }

  // ----- the probe sequence -----

  /** The first bucket probed for a key: `key & (cap - 1)`. */
  function Start(key: u16, n: nat): (s: nat)
    requires IsPow2(n)
    ensures s < n
  {
    AndAtMost(key, n - 1);
    BitAnd(key, n - 1)
  }

  /** The bucket probed j steps after bucket s, wrapping at the end of the table. */
  function Step(s: nat, j: nat, n: nat): (h: nat)
    requires s < n && j < n
    ensures h < n
  {
    if s + j < n then s + j else s + j - n
  }

  /** How many steps after bucket s the probe reaches bucket p. */
  function Dist(s: nat, p: nat, n: nat): (j: nat)
    requires s < n && p < n
    ensures j < n && Step(s, j, n) == p
  {
    if s <= p then p - s else p + n - s
  }

  /** Distinct steps reach distinct buckets. */
  lemma DistStep(s: nat, j: nat, n: nat)
    requires s < n && j < n
    ensures Dist(s, Step(s, j, n), n) == j
  {
  }

  /** `hash &= cap - 1` after `hash += 1`: for a power-of-two size the mask
      moves to the next bucket, back to 0 after the last. */
  lemma MaskNext(h: nat, n: nat)
    requires IsPow2(n) && h < n
    ensures BitAnd(h + 1, n - 1) == if h + 1 < n then h + 1 else 0
  {
    var k := Log2(n);
    if h + 1 < n {
      AndLowMask(0, h + 1, k);
    } else {
      AndLowMask(1, 0, k);
    }
  }

  /** The bucket after the k-th of a probe is its (k + 1)-th. */
  lemma ProbeNext(s: nat, k: nat, n: nat, h: nat)
    requires IsPow2(n) && s < n && k + 1 < n && h == Step(s, k, n)
    ensures BitAnd(h + 1, n - 1) == Step(s, k + 1, n)
  {
    MaskNext(h, n);
  }

  /** The mask leaves a bucket index unchanged. */
  lemma MaskIndex(h: nat, n: nat)
    requires IsPow2(n) && h < n
    ensures BitAnd(h, n - 1) == h
  {
    AndLowMask(0, h, Log2(n));
  }

  // ----- lookup -----

  /** What `shortmap_get` returns when its probe for key, started at bucket
      s, has already taken i steps: the value of the first bucket holding
      the key, or nothing at the first empty bucket or after n probes. */
  function LookupAt<V>(b: seq<Bucket<V>>, key: u16, s: nat, i: nat): Option<V>
    requires s < |b| && i <= |b|
    decreases |b| - i
  {
    if i == |b| then None
    else
      var h := Step(s, i, |b|);
      if b[h].value.None? then None
      else if b[h].key == key then b[h].value
      else LookupAt(b, key, s, i + 1)
  }

  /** `shortmap_get(map, key)` on a table of power-of-two size. */
  function Lookup<V>(b: seq<Bucket<V>>, key: u16): Option<V>
    requires IsPow2(|b|)
  {
    LookupAt(b, key, Start(key, |b|), 0)
  }

  /** The map the table represents: each key with the value `shortmap_get` finds. */
  ghost function View<V>(b: seq<Bucket<V>>): map<u16, V>
    requires IsPow2(|b|)
  {
    map k: u16 | 0 <= k < 0x1_0000 && Lookup(b, k).Some? :: Lookup(b, k).value
  }

  /** The linear-probing invariant: every bucket between a key's first probe
      and the bucket that holds it is in use, so no probe stops early. */
  ghost predicate Reach<V>(b: seq<Bucket<V>>)
    requires IsPow2(|b|)
  {
    forall p, j :: 0 <= p < |b| && b[p].value.Some? && 0 <= j < Dist(Start(b[p].key, |b|), p, |b|) ==>
      b[Step(Start(b[p].key, |b|), j, |b|)].value.Some?
  }

  /** No key is held by two non-empty buckets. */
  ghost predicate KeysDistinct<V>(b: seq<Bucket<V>>)
  {
    forall p, q :: 0 <= p < q < |b| && b[p].value.Some? && b[q].value.Some? ==> b[p].key != b[q].key
  }

  /** No non-empty bucket holds the key. */
  ghost predicate Absent<V>(b: seq<Bucket<V>>, key: u16)
  {
    forall p :: 0 <= p < |b| && b[p].value.Some? ==> b[p].key != key
  }

  /** The non-empty buckets as a map, later buckets overriding earlier ones. */
  function Entries<V>(b: seq<Bucket<V>>): map<u16, V>
  {
    if |b| == 0 then map[]
    else
      var m := Entries(b[..|b| - 1]);
      var x := b[|b| - 1];
      if x.value.Some? then m[x.key := x.value.value] else m
  }

  // ----- lemmas about the probe -----

  /** The probe returns the value of a bucket holding the key when every
      bucket before it on the probe sequence holds another key. */
  lemma {:induction false} LookupFound<V>(b: seq<Bucket<V>>, key: u16, s: nat, i: nat, d: nat)
    requires s < |b| && i <= d < |b|
    requires forall j :: i <= j < d ==> b[Step(s, j, |b|)].value.Some? && b[Step(s, j, |b|)].key != key
    requires b[Step(s, d, |b|)].value.Some? && b[Step(s, d, |b|)].key == key
    ensures LookupAt(b, key, s, i) == b[Step(s, d, |b|)].value
    decreases d - i
  {
    if i < d {
      LookupFound(b, key, s, i + 1, d);
    }
  }

  /** The probe finds nothing when no remaining bucket on it holds the key. */
  lemma {:induction false} LookupMissing<V>(b: seq<Bucket<V>>, key: u16, s: nat, i: nat)
    requires s < |b| && i <= |b|
    requires forall j :: i <= j < |b| ==> b[Step(s, j, |b|)].value.None? || b[Step(s, j, |b|)].key != key
    ensures LookupAt(b, key, s, i) == None
    decreases |b| - i
  {
    if i < |b| {
      LookupMissing(b, key, s, i + 1);
    }
  }

  /** Filling the first empty bucket on a key's probe sequence with that key:
      the probe now finds the new value unless it found an older one first. */
  lemma {:induction false} PlaceSame<V>(b: seq<Bucket<V>>, key: u16, v: V, s: nat, i: nat, d: nat)
    requires s < |b| && i <= d < |b|
    requires forall j :: i <= j < d ==> b[Step(s, j, |b|)].value.Some?
    requires b[Step(s, d, |b|)].value.None?
    ensures var r := LookupAt(b, key, s, i);
      LookupAt(b[Step(s, d, |b|) := Bucket(key, Some(v))], key, s, i) == if r.Some? then r else Some(v)
    decreases d - i
  {
    var q := Step(s, d, |b|);
    var b' := b[q := Bucket(key, Some(v))];
    if i < d {
      var h := Step(s, i, |b|);
      DistStep(s, i, |b|);
      DistStep(s, d, |b|);
      assert h != q;
      PlaceSame(b, key, v, s, i + 1, d);
    }
  }

  /** Filling an empty bucket with another key does not change what the
      probe for k finds, given the linear-probing invariant. */
  lemma {:induction false} PlaceOther<V>(b: seq<Bucket<V>>, q: nat, x: Bucket<V>, k: u16, i: nat)
    requires IsPow2(|b|) && Reach(b)
    requires q < |b| && b[q].value.None? && x.key != k
    requires i <= Dist(Start(k, |b|), q, |b|)
    ensures LookupAt(b[q := x], k, Start(k, |b|), i) == LookupAt(b, k, Start(k, |b|), i)
    decreases |b| - i
  {
    var n := |b|;
    var s := Start(k, n);
    var e := Dist(s, q, n);
    var b' := b[q := x];
    if i == e {
      forall j | e + 1 <= j < n
        ensures b'[Step(s, j, n)].value.None? || b'[Step(s, j, n)].key != k
      {
        var r := Step(s, j, n);
        DistStep(s, j, n);
        assert r != q;
        var t := b[Step(Start(b[r].key, n), e, n)];
        assert b[r].value.None? || b[r].key != k;
      }
      LookupMissing(b', k, s, e + 1);
    } else {
      DistStep(s, i, n);
      PlaceOther(b, q, x, k, i + 1);
    }
  }

  /** The effect of filling the first empty bucket on key's probe sequence
      on the map the table represents: the key is added unless present. */
  lemma PlaceView<V>(b: seq<Bucket<V>>, key: u16, v: V, d: nat)
    requires IsPow2(|b|) && Reach(b) && d < |b|
    requires forall j :: 0 <= j < d ==> b[Step(Start(key, |b|), j, |b|)].value.Some?
    requires b[Step(Start(key, |b|), d, |b|)].value.None?
    ensures var b' := b[Step(Start(key, |b|), d, |b|) := Bucket(key, Some(v))];
      View(b') == if key in View(b) then View(b) else View(b)[key := v]
  {
    var n := |b|;
    var s := Start(key, n);
    var q := Step(s, d, n);
    var b' := b[q := Bucket(key, Some(v))];
    PlaceSame(b, key, v, s, 0, d);
    forall k: u16 | k != key
      ensures Lookup(b', k) == Lookup(b, k)
    {
      PlaceOther(b, q, Bucket(key, Some(v)), k, 0);
    }
    var m := if key in View(b) then View(b) else View(b)[key := v];
    assert View(b') == m;
  }

  /** Filling the first empty bucket on the key's probe sequence keeps the invariant. */
  lemma PlaceReach<V>(b: seq<Bucket<V>>, key: u16, v: V, d: nat)
    requires IsPow2(|b|) && Reach(b) && d < |b|
    requires forall j :: 0 <= j < d ==> b[Step(Start(key, |b|), j, |b|)].value.Some?
    requires b[Step(Start(key, |b|), d, |b|)].value.None?
    ensures Reach(b[Step(Start(key, |b|), d, |b|) := Bucket(key, Some(v))])
  {
    var n := |b|;
    var q := Step(Start(key, n), d, n);
    var b' := b[q := Bucket(key, Some(v))];
    forall p, j | 0 <= p < n && b'[p].value.Some? && 0 <= j < Dist(Start(b'[p].key, n), p, n)
      ensures b'[Step(Start(b'[p].key, n), j, n)].value.Some?
    {
      if p == q {
        assert Dist(Start(key, n), q, n) == d by { DistStep(Start(key, n), d, n); }
      } else {
        assert b[Step(Start(b[p].key, n), j, n)].value.Some?;
      }
    }
  }

  /** Storing a key that the table does not hold keeps the keys distinct. */
  lemma PlaceDistinct<V>(b: seq<Bucket<V>>, key: u16, v: V, q: nat)
    requires IsPow2(|b|) && Reach(b) && KeysDistinct(b) && key !in View(b)
    requires q < |b| && b[q].value.None?
    ensures KeysDistinct(b[q := Bucket(key, Some(v))])
  {
    ViewIsEntries(b);
    EntriesHold(b, key);
  }

  /** Everything `Place` needs about filling the first empty bucket on the
      key's probe sequence. */
  lemma PlaceEffect<V>(b: seq<Bucket<V>>, key: u16, v: V, d: nat)
    requires Table(b, Count(b)) && d < |b|
    requires forall j :: 0 <= j < d ==> b[Step(Start(key, |b|), j, |b|)].value.Some?
    requires b[Step(Start(key, |b|), d, |b|)].value.None?
    ensures var b' := b[Step(Start(key, |b|), d, |b|) := Bucket(key, Some(v))];
      Table(b', Count(b) + 1) &&
      View(b') == (if key in View(b) then View(b) else View(b)[key := v]) &&
      (KeysDistinct(b) && key !in View(b) ==> KeysDistinct(b'))
  {
    var q := Step(Start(key, |b|), d, |b|);
    CountPlace(b, q, Bucket(key, Some(v)));
    PlaceReach(b, key, v, d);
    PlaceView(b, key, v, d);
    if KeysDistinct(b) && key !in View(b) {
      PlaceDistinct(b, key, v, q);
    }
  }

  /** Filling an empty bucket adds one to the count. */
  lemma {:induction false} CountPlace<V>(b: seq<Bucket<V>>, q: nat, x: Bucket<V>)
    requires q < |b| && b[q].value.None? && x.value.Some?
    ensures Count(b[q := x]) == Count(b) + 1
  {
    var b' := b[q := x];
    if q == |b| - 1 {
      assert b'[..|b| - 1] == b[..|b| - 1];
    } else {
      assert b'[..|b| - 1] == b[..|b| - 1][q := x];
      CountPlace(b[..|b| - 1], q, x);
    }
  }

  /** Fewer non-empty buckets than buckets leaves an empty one. */
  lemma {:induction false} EmptyExists<V>(b: seq<Bucket<V>>)
    requires Count(b) < |b|
    ensures exists p :: 0 <= p < |b| && b[p].value.None?
  {
    if b[|b| - 1].value.Some? {
      EmptyExists(b[..|b| - 1]);
      var p :| 0 <= p < |b| - 1 && b[..|b| - 1][p].value.None?;
      assert b[p].value.None?;
    }
  }

  /** A key is in `Entries` exactly when a non-empty bucket holds it, and
      without duplicate keys its value is that bucket's. */
  lemma {:induction false} EntriesHold<V>(b: seq<Bucket<V>>, key: u16)
    ensures key in Entries(b) <==> !Absent(b, key)
    ensures KeysDistinct(b) ==> forall p :: 0 <= p < |b| && b[p].value.Some? && b[p].key == key ==>
      key in Entries(b) && Entries(b)[key] == b[p].value.value
  {
    if |b| > 0 {
      var c := b[..|b| - 1];
      EntriesHold(c, key);
      assert forall p :: 0 <= p < |c| ==> c[p] == b[p];
      if KeysDistinct(b) {
        assert KeysDistinct(c);
      }
    }
  }

  /** One more bucket of a prefix: it adds to the count and to the entries
      when it is in use, and without duplicate keys its key is new. */
  lemma PrefixStep<V>(b: seq<Bucket<V>>, i: nat)
    requires i < |b|
    ensures Count(b[..i + 1]) == Count(b[..i]) + if b[i].value.Some? then 1 else 0
    ensures Entries(b[..i + 1]) == if b[i].value.Some? then Entries(b[..i])[b[i].key := b[i].value.value] else Entries(b[..i])
    ensures KeysDistinct(b) && b[i].value.Some? ==> b[i].key !in Entries(b[..i])
  {
    assert b[..i + 1][..i] == b[..i];
    if KeysDistinct(b) && b[i].value.Some? {
      EntriesHold(b[..i], b[i].key);
    }
  }

  /** Without duplicate keys, the map the probe sees is the map of the
      non-empty buckets. */
  lemma ViewIsEntries<V>(b: seq<Bucket<V>>)
    requires IsPow2(|b|) && Reach(b) && KeysDistinct(b)
    ensures View(b) == Entries(b)
  {
    var n := |b|;
    forall k: u16
      ensures Lookup(b, k) == if k in Entries(b) then Some(Entries(b)[k]) else None
    {
      EntriesHold(b, k);
      var s := Start(k, n);
      if Absent(b, k) {
        LookupMissing(b, k, s, 0);
      } else {
        var p :| 0 <= p < n && b[p].value.Some? && b[p].key == k;
        var d := Dist(s, p, n);
        forall j | 0 <= j < d
          ensures b[Step(s, j, n)].value.Some? && b[Step(s, j, n)].key != k
        {
          DistStep(s, j, n);
          assert Step(s, j, n) != p;
        }
        LookupFound(b, k, s, 0, d);
      }
    }
  }

  /** Every bucket empty: the count is 0 and the map is empty. */
  lemma {:induction false} AllEmpty<V>(b: seq<Bucket<V>>)
    requires forall i :: 0 <= i < |b| ==> b[i].value.None?
    ensures Count(b) == 0
    ensures IsPow2(|b|) ==> Reach(b) && View(b) == map[]
  {
    if |b| > 0 {
      AllEmpty(b[..|b| - 1]);
    }
  }

  /** A table of power-of-two size showing what `shortmap_insert` relies on. */
  ghost predicate Table<V>(b: seq<Bucket<V>>, len: int)
  {
    IsPow2(|b|) && len == Count(b) && Reach(b)
  }

  /** `shortmap_t`. */
  class ShortMap<V> {
    var buckets: array<Bucket<V>>
    var cap: u16
    var len: u16

    /** The buckets form a table of `cap` buckets, cap a power of two,
        `len` of them in use, every key reachable by its probe. */
    ghost predicate Valid()
      reads this, buckets
    {
      buckets.Length == cap as int && Table(buckets[..], len as int)
    }

    /** The map `shortmap_get` sees. */
    ghost function Contents(): map<u16, V>
      reads this, buckets
      requires Valid()
    {
      View(buckets[..])
    }

    /** No key is stored twice. */
    ghost predicate Distinct()
      reads this, buckets
    {
      KeysDistinct(buckets[..])
    }

    /** The resize test of `shortmap_insert`: more than three quarters in use. */
    predicate Resizes()
      reads this
    {
      len as int > (cap as int + cap as int / 2) / 2
    }

    /** `shortmap_create(initial_cap)`: every bucket key 0 and NULL. */
    constructor (initialCap: u16)
      ensures cap == initialCap && len == 0 && buckets.Length == initialCap as int && fresh(buckets)
      ensures forall i :: 0 <= i < buckets.Length ==> buckets[i] == Bucket(0, None)
      ensures IsPow2(initialCap as nat) ==> Valid() && Contents() == map[] && Distinct()
    {
      cap := initialCap;
      len := 0;
      var b := new Bucket<V>[initialCap];
      for i := 0 to initialCap
        invariant forall j :: 0 <= j < i ==> b[j] == Bucket(0, None)
      {
        b[i] := Bucket(0, None);
      }
      buckets := b;
      new;
      AllEmpty(buckets[..]);
    }

    /** `shortmap_get(map, key)`. */
    method Get(key: u16) returns (r: Option<V>)
      requires Valid()
      ensures r == Lookup(buckets[..], key)
    {
      var n := cap as nat;
      ghost var s := Start(key, n);
      var hash: u16 := key;
      var i := 0;
      while i < cap as int
        invariant 0 <= i <= n
        invariant i < n ==> BitAnd(hash, n - 1) == Step(s, i, n)
        invariant Lookup(buckets[..], key) == LookupAt(buckets[..], key, s, i)
      {
        hash := BitAnd(hash, n - 1);
        if buckets[hash].value.None? {
          return None;
        }
        if buckets[hash].key == key {
          return buckets[hash].value;
        }
        MaskNext(hash, n);
        hash := hash + 1;
        i := i + 1;
      }
      return None;
    }

    /** `shortmap_insert(map, key, value)` for a non-NULL value: resize if
        needed, then store in the first empty bucket of the key's probe
        sequence; the result is that bucket's index. The key is not looked
        for, so a key stored again stays hidden behind the earlier bucket. */
    method Insert(key: u16, value: V) returns (idx: nat)
      requires Valid()
      requires Resizes() ==> cap <= 0x4000
      modifies this, buckets
      decreases if Resizes() then 3 else 0
      ensures Valid()
      ensures idx < buckets.Length && buckets[idx] == Bucket(key, Some(value))
      ensures len as int == old(len as int) + 1
      ensures cap as int == if old(Resizes()) then 2 * old(cap as int) else old(cap as int)
      ensures !old(Resizes()) ==> buckets == old(buckets) && buckets[..] == old(buckets[..])[idx := Bucket(key, Some(value))]
      ensures old(Resizes()) ==> fresh(buckets)
      ensures !old(Resizes()) || old(Distinct()) ==>
        Contents() == if key in old(Contents()) then old(Contents()) else old(Contents())[key := value]
      ensures old(Distinct()) && key !in old(Contents()) ==> Distinct()
    {
      if len as int > (cap as int + cap as int / 2) / 2 {
        Rehash();
      }
      idx := Place(key, value);
    }

    /** The rest of `shortmap_insert` once the resize test has passed:
        count the new entry, then probe from `key & (cap - 1)` until an
        empty bucket turns up and store the pair there. There is one because
        fewer than `cap` buckets are in use. */
    method Place(key: u16, value: V) returns (idx: nat)
      requires Valid() && len < cap
      modifies this`len, buckets
      ensures Valid() && cap == old(cap)
      ensures idx < buckets.Length && buckets[..] == old(buckets[..])[idx := Bucket(key, Some(value))]
      ensures len as int == old(len as int) + 1
      ensures Contents() == if key in old(Contents()) then old(Contents()) else old(Contents())[key := value]
      ensures old(Distinct()) && key !in old(Contents()) ==> Distinct()
    {
      ghost var b := buckets[..];
      len := len + 1;
      var n := cap as nat;
      ghost var s := Start(key, n);
      EmptyExists(b);
      ghost var e :| 0 <= e < n && b[e].value.None?;
      var hash: u16 := key;
      ghost var k := 0;
      while true
        invariant buckets[..] == b && cap as nat == n && len as int == Count(b) + 1
        invariant 0 <= k <= Dist(s, e, n)
        invariant BitAnd(hash, n - 1) == Step(s, k, n)
        invariant forall j :: 0 <= j < k ==> b[Step(s, j, n)].value.Some?
        decreases Dist(s, e, n) - k
      {
        hash := BitAnd(hash, n - 1);
        if buckets[hash].value.None? {
          buckets[hash] := Bucket(key, Some(value));
          idx := hash;
          PlaceEffect(b, key, value, k);
          return;
        }
        assert k < Dist(s, e, n) by {
          DistStep(s, k, n);
        }
        ProbeNext(s, k, n, hash);
        hash := hash + 1;
        k := k + 1;
      }
    }

    /** The resize of `shortmap_insert`: double `cap`, start from a zeroed
        table with `len` 0 and re-insert every non-empty old bucket in index
        order. */
    method Rehash()
      requires Valid() && Resizes() && cap <= 0x4000
      modifies this
      decreases 2
      ensures Valid() && fresh(buckets)
      ensures cap as int == 2 * old(cap as int) && len == old(len)
      ensures len < cap
      ensures old(Distinct()) ==> Distinct() && Contents() == old(Contents())
    {
      var oldBuckets := buckets;
      ghost var ob := buckets[..];
      var oldCap := cap;
      assert IsPow2(oldCap as nat) && Reach(ob) && Count(ob) == len as int;
      cap := cap * 2;
      len := 0;
      buckets := new Bucket<V>[cap](_ => Bucket(0, None));
      AllEmpty(buckets[..]);
      for i := 0 to oldCap as int
        invariant Valid() && fresh(buckets)
        invariant cap as int == 2 * oldCap as int && oldBuckets[..] == ob
        invariant len as int == Count(ob[..i])
        invariant KeysDistinct(ob) ==> Distinct() && Contents() == Entries(ob[..i])
      {
        PrefixStep(ob, i);
        if oldBuckets[i].value.Some? {
          Reinsert(oldBuckets[i].key, oldBuckets[i].value.value, ob, i);
        }
      }
      assert ob[..oldCap] == ob;
      if KeysDistinct(ob) {
        ViewIsEntries(ob);
      }
    }

    /** One step of the resize loop: `shortmap_insert` of old bucket i into a
        table it does not make resize. */
    method Reinsert(key: u16, value: V, ghost ob: seq<Bucket<V>>, ghost i: nat)
      requires Valid() && !Resizes() && i < |ob| && ob[i] == Bucket(key, Some(value))
      requires KeysDistinct(ob) ==> Distinct() && Contents() == Entries(ob[..i])
      modifies this, buckets
      decreases 1
      ensures Valid() && cap == old(cap) && buckets == old(buckets) && len as int == old(len as int) + 1
      ensures KeysDistinct(ob) ==> Distinct() && Contents() == Entries(ob[..i + 1])
    {
      PrefixStep(ob, i);
      var _ := Insert(key, value);
    }
  }
}
