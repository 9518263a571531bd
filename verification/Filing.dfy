/**
 The structure of the dual-key table as values: which buckets the slots hold, what is in them, and the consistency that
 every run of the table keeps.
 */
module Filing {
  import opened Wrappers
  import opened Buckets

  /** A main key and a control key. */
  type KeyPair = (nat, nat)

  /** Which elements are filed under each key pair that has any. */
  type Files<T> = map<KeyPair, set<T>>

  function Under<T>(m: Files<T>, k: KeyPair): (s: set<T>) {
    if k in m then m[k] else {}
  }

  function File<T>(m: Files<T>, k: KeyPair, x: T): (r: Files<T>) {
    m[k := Under(m, k) + {x}]
  }

  function Unfile<T>(m: Files<T>, k: KeyPair, x: T): (r: Files<T>) {
    if k !in m then m else if m[k] - {x} == {} then m - {k} else m[k := m[k] - {x}]
  }

  /** What a bucket holds and the slot that holds it; a pooled bucket has the slot -1. */
  datatype Entry<T> = Entry(key: nat, chain: set<T>, slot: int)

  /** The description of every bucket not freed, the abstract contents, and the most buckets ever in use at once. */
  datatype Ledger<!T> = Ledger(entries: map<Bucket<T>, Entry<T>>, files: Files<T>, peak: nat)

  type Slot<T> = Option<seq<Bucket<T>>>

  ghost predicate BucketOk<T>(b: Bucket<T>, m: nat, g: Ledger<T>) {
    && b in g.entries
    && var e := g.entries[b];
       && e.slot == m && e.chain != {}
       && (m, e.key) in g.files && g.files[(m, e.key)] == e.chain
  }

  /** The buckets of a slot are non-empty, filed there only, and differ in their control keys. */
  ghost predicate SlotOk<T>(s: Slot<T>, m: nat, g: Ledger<T>) {
    s.Some? ==>
      && (forall i :: 0 <= i < |s.value| ==> BucketOk(s.value[i], m, g))
      && (forall i, j :: 0 <= i < j < |s.value| ==> g.entries[s.value[i]].key != g.entries[s.value[j]].key)
  }

  ghost predicate HasKey<T>(s: Slot<T>, ckey: nat, g: Ledger<T>) {
    s.Some? && exists i :: 0 <= i < |s.value| && s.value[i] in g.entries && g.entries[s.value[i]].key == ckey
  }

  /** Every key pair with elements has its bucket. */
  ghost predicate FilesOk<T>(slots: seq<Slot<T>>, g: Ledger<T>) {
    forall k :: k in g.files ==> k.0 < |slots| && HasKey(slots[k.0], k.1, g)
  }

  /** Pooled buckets are reset, out of use and pooled once. */
  ghost predicate PoolOk<T>(pool: seq<Bucket<T>>, g: Ledger<T>) {
    && (forall i :: 0 <= i < |pool| ==> pool[i] in g.entries && g.entries[pool[i]] == Entry(0, {}, -1))
    && (forall i, j :: 0 <= i < j < |pool| ==> pool[i] != pool[j])
  }

  ghost predicate InUse<T>(slots: seq<Slot<T>>, m: nat) {
    m < |slots| && slots[m].Some? && |slots[m].value| > 0
  }

  /** The index lists each slot in use once, and no other. */
  ghost predicate IndexOk<T>(slots: seq<Slot<T>>, filled: seq<nat>) {
    && (forall i, j :: 0 <= i < j < |filled| ==> filled[i] != filled[j])
    && (forall m: nat :: m in filled <==> InUse(slots, m))
  }

  /** No bucket is lost, and none is allocated while one is free. */
  ghost predicate CountOk<T>(pool: seq<Bucket<T>>, g: Ledger<T>) {
    |g.entries| == |g.files| + |pool| == g.peak
  }

  ghost predicate Consistent<T>(slots: seq<Slot<T>>, filled: seq<nat>, pool: seq<Bucket<T>>, g: Ledger<T>) {
    && (forall m :: 0 <= m < |slots| ==> SlotOk(slots[m], m, g))
    && FilesOk(slots, g)
    && PoolOk(pool, g)
    && IndexOk(slots, filled)
    && CountOk(pool, g)
  }

  /** The buckets of a slot, none for a slot never used. */
  function BucketsOf<T>(s: Slot<T>): (v: seq<Bucket<T>>) {
    if s.Some? then s.value else []
  }

  /** A slot has a bucket with a control key exactly when something is filed under the pair. */
  lemma KeyFound<T>(slots: seq<Slot<T>>, g: Ledger<T>, k: KeyPair)
    requires k.0 < |slots| && SlotOk(slots[k.0], k.0, g) && FilesOk(slots, g)
    ensures HasKey(slots[k.0], k.1, g) <==> k in g.files
  {
    if HasKey(slots[k.0], k.1, g) {
      var v := slots[k.0].value;
      var i :| 0 <= i < |v| && v[i] in g.entries && g.entries[v[i]].key == k.1;
      assert BucketOk(v[i], k.0, g);
    }
  }

  lemma MapPut<K, V>(m: map<K, V>, k: K, v: V)
    ensures |m[k := v]| == |m| + if k in m then 0 else 1
  {
    assert m[k := v].Keys == m.Keys + {k};
    assert |m| == |m.Keys| && |m[k := v]| == |m[k := v].Keys|;
    if k in m {
      assert m.Keys + {k} == m.Keys;
    }
  }

  // ----- One element added -----

  /** The ledger once b holds x as well, under k: b is new to the slot, or holds the elements of k already. */
  function Entered<T>(g: Ledger<T>, b: Bucket<T>, k: KeyPair, x: T): (r: Ledger<T>) {
    var files := File(g.files, k, x);
    Ledger(g.entries[b := Entry(k.1, files[k], k.0)], files, if |files| > g.peak then |files| else g.peak)
  }

  /** A bucket for a first element: the oldest pooled one, else one never seen. */
  ghost predicate Taken<T>(b: Bucket<T>, pool: seq<Bucket<T>>, pool': seq<Bucket<T>>, g: Ledger<T>) {
    if |pool| == 0 then b !in g.entries && pool' == [] else b == pool[0] && pool' == pool[1..]
  }

  /** Taking a bucket out of the pool for a key pair without one disturbs no slot. */
  lemma SlotKept<T>(s: Slot<T>, m: nat, g: Ledger<T>, b: Bucket<T>, k: KeyPair, x: T)
    requires SlotOk(s, m, g) && k !in g.files
    requires b in g.entries ==> g.entries[b].slot == -1
    ensures SlotOk(s, m, Entered(g, b, k, x))
  {
    if s.Some? {
      var g' := Entered(g, b, k, x);
      forall i | 0 <= i < |s.value|
        ensures BucketOk(s.value[i], m, g')
        ensures g'.entries[s.value[i]].key == g.entries[s.value[i]].key
      {
        assert BucketOk(s.value[i], m, g);
      }
    }
  }

  lemma HasKeyKept<T>(s: Slot<T>, m: nat, c: nat, g: Ledger<T>, b: Bucket<T>, k: KeyPair, x: T)
    requires SlotOk(s, m, g) && k !in g.files && HasKey(s, c, g)
    requires b in g.entries ==> g.entries[b].slot == -1
    ensures HasKey(s, c, Entered(g, b, k, x))
  {
    var i :| 0 <= i < |s.value| && s.value[i] in g.entries && g.entries[s.value[i]].key == c;
    assert BucketOk(s.value[i], m, g);
  }

  /** A new bucket at the end of its slot's vector. */
  lemma BucketAppended<T>(slots: seq<Slot<T>>, filled: seq<nat>, pool: seq<Bucket<T>>, g: Ledger<T>,
                          b: Bucket<T>, pool': seq<Bucket<T>>, k: KeyPair, x: T)
    requires Consistent(slots, filled, pool, g)
    requires k.0 < |slots| && k !in g.files && Taken(b, pool, pool', g)
    ensures var v := BucketsOf(slots[k.0]);
            Consistent(slots[k.0 := Some(v + [b])], if |v| == 0 then filled + [k.0] else filled, pool',
                       Entered(g, b, k, x))
  {
    var v, g' := BucketsOf(slots[k.0]), Entered(g, b, k, x);
    var slots' := slots[k.0 := Some(v + [b])];
    forall m | 0 <= m < |slots'|
      ensures SlotOk(slots'[m], m, g')
    {
      SlotKept(slots[m], m, g, b, k, x);
      if m == k.0 {
        AppendedSlot(slots[m], m, g, b, k, x);
      }
    }
    FilesAppended(slots, g, b, k, x);
    IndexAppended(slots, filled, k.0, b);
    PoolTaken(pool, pool', g, b, k, x);
  }

  lemma AppendedSlot<T>(s: Slot<T>, m: nat, g: Ledger<T>, b: Bucket<T>, k: KeyPair, x: T)
    requires SlotOk(s, m, g) && m == k.0 && k !in g.files
    requires b in g.entries ==> g.entries[b].slot == -1
    ensures SlotOk(Some(BucketsOf(s) + [b]), m, Entered(g, b, k, x))
  {
    var v, g' := BucketsOf(s), Entered(g, b, k, x);
    SlotKept(s, m, g, b, k, x);
    forall i | 0 <= i < |v|
      ensures BucketOk(v[i], m, g') && g'.entries[v[i]].key != k.1
    {
      assert BucketOk(v[i], m, g) && BucketOk(v[i], m, g');
    }
    assert BucketOk(b, m, g');
  }

  lemma FilesAppended<T>(slots: seq<Slot<T>>, g: Ledger<T>, b: Bucket<T>, k: KeyPair, x: T)
    requires FilesOk(slots, g) && k.0 < |slots| && k !in g.files
    requires forall m :: 0 <= m < |slots| ==> SlotOk(slots[m], m, g)
    requires b in g.entries ==> g.entries[b].slot == -1
    ensures FilesOk(slots[k.0 := Some(BucketsOf(slots[k.0]) + [b])], Entered(g, b, k, x))
  {
    var v, g' := BucketsOf(slots[k.0]), Entered(g, b, k, x);
    var slots' := slots[k.0 := Some(v + [b])];
    forall j | j in g'.files
      ensures j.0 < |slots'| && HasKey(slots'[j.0], j.1, g')
    {
      if j == k {
        assert (v + [b])[|v|] == b;
      } else {
        HasKeyKept(slots[j.0], j.0, j.1, g, b, k, x);
        HasKeyAppended(slots[j.0], j.1, g', b);
      }
    }
  }

  lemma HasKeyAppended<T>(s: Slot<T>, c: nat, g: Ledger<T>, b: Bucket<T>)
    requires HasKey(s, c, g)
    ensures HasKey(Some(s.value + [b]), c, g)
  {
    var i :| 0 <= i < |s.value| && s.value[i] in g.entries && g.entries[s.value[i]].key == c;
    assert (s.value + [b])[i] == s.value[i];
  }

  lemma IndexAppended<T>(slots: seq<Slot<T>>, filled: seq<nat>, m: nat, b: Bucket<T>)
    requires IndexOk(slots, filled) && m < |slots|
    ensures var v := BucketsOf(slots[m]);
            IndexOk(slots[m := Some(v + [b])], if |v| == 0 then filled + [m] else filled)
  {
    var slots' := slots[m := Some(BucketsOf(slots[m]) + [b])];
    assert forall n: nat :: InUse(slots', n) <==> InUse(slots, n) || n == m;
    assert InUse(slots, m) <==> |BucketsOf(slots[m])| > 0;
  }

  lemma PoolTaken<T>(pool: seq<Bucket<T>>, pool': seq<Bucket<T>>, g: Ledger<T>, b: Bucket<T>, k: KeyPair, x: T)
    requires PoolOk(pool, g) && CountOk(pool, g) && k !in g.files && Taken(b, pool, pool', g)
    ensures PoolOk(pool', Entered(g, b, k, x)) && CountOk(pool', Entered(g, b, k, x))
  {
    var g' := Entered(g, b, k, x);
    MapPut(g.files, k, g'.files[k]);
    MapPut(g.entries, b, g'.entries[b]);
  }

  /** A ledger that changed only what the bucket of k holds, and the files with it. */
  ghost predicate Refiled<T>(g: Ledger<T>, g': Ledger<T>, b: Bucket<T>, k: KeyPair) {
    && b in g.entries && g.entries[b].slot == k.0 && g.entries[b].key == k.1
    && k in g'.files && g'.files[k] != {}
    && g'.entries == g.entries[b := Entry(k.1, g'.files[k], k.0)]
    && g'.files == g.files[k := g'.files[k]]
  }

  lemma RefiledSlot<T>(s: Slot<T>, m: nat, v: seq<Bucket<T>>, g: Ledger<T>, g': Ledger<T>, b: Bucket<T>, k: KeyPair)
    requires SlotOk(s, m, g) && Refiled(g, g', b, k)
    requires b in v && (m == k.0 ==> s == Some(v))
    ensures SlotOk(s, m, g')
  {
    if s.Some? {
      forall i | 0 <= i < |s.value|
        ensures BucketOk(s.value[i], m, g')
        ensures g'.entries[s.value[i]].key == g.entries[s.value[i]].key
      {
        assert BucketOk(s.value[i], m, g);
      }
    }
  }

  lemma RefiledHasKey<T>(s: Slot<T>, c: nat, g: Ledger<T>, g': Ledger<T>, b: Bucket<T>)
    requires HasKey(s, c, g) && b in g.entries
    requires b in g'.entries && g'.entries == g.entries[b := g'.entries[b]] && g'.entries[b].key == g.entries[b].key
    ensures HasKey(s, c, g')
  {
    var i :| 0 <= i < |s.value| && s.value[i] in g.entries && g.entries[s.value[i]].key == c;
    assert s.value[i] in g'.entries;
  }

  lemma RefiledFiles<T>(slots: seq<Slot<T>>, g: Ledger<T>, g': Ledger<T>, b: Bucket<T>, k: KeyPair)
    requires FilesOk(slots, g) && Refiled(g, g', b, k) && k in g.files
    ensures FilesOk(slots, g')
  {
    forall j | j in g'.files
      ensures j.0 < |slots| && HasKey(slots[j.0], j.1, g')
    {
      RefiledHasKey(slots[j.0], j.1, g, g', b);
    }
  }

  lemma RefiledPool<T>(pool: seq<Bucket<T>>, g: Ledger<T>, g': Ledger<T>, b: Bucket<T>, k: KeyPair)
    requires PoolOk(pool, g) && |g.entries| == |g.files| + |pool| && Refiled(g, g', b, k) && k in g.files
    ensures PoolOk(pool, g') && |g'.entries| == |g'.files| + |pool|
  {
    MapPut(g.files, k, g'.files[k]);
    MapPut(g.entries, b, g'.entries[b]);
  }

  /** One more element in a bucket already filed. */
  lemma ElementJoined<T>(slots: seq<Slot<T>>, filled: seq<nat>, pool: seq<Bucket<T>>, g: Ledger<T>,
                         b: Bucket<T>, k: KeyPair, x: T)
    requires Consistent(slots, filled, pool, g)
    requires k.0 < |slots| && b in BucketsOf(slots[k.0]) && b in g.entries && g.entries[b].key == k.1
    ensures k in g.files && Consistent(slots, filled, pool, Entered(g, b, k, x))
    ensures Entered(g, b, k, x).peak == g.peak
  {
    var v, g' := slots[k.0].value, Entered(g, b, k, x);
    assert BucketOk(b, k.0, g);
    MapPut(g.files, k, g'.files[k]);
    forall m | 0 <= m < |slots|
      ensures SlotOk(slots[m], m, g')
    {
      RefiledSlot(slots[m], m, v, g, g', b, k);
    }
    RefiledFiles(slots, g, g', b, k);
    RefiledPool(pool, g, g', b, k);
  }

  // ----- One element removed -----

  /** The ledger once b, the bucket of k, has lost x: it keeps the rest, or goes back to the pool reset. */
  function Departed<T>(g: Ledger<T>, b: Bucket<T>, k: KeyPair, x: T): (r: Ledger<T>) {
    var files := Unfile(g.files, k, x);
    Ledger(g.entries[b := if k in files then Entry(k.1, files[k], k.0) else Entry(0, {}, -1)], files, g.peak)
  }

  lemma SomeLeft<T>(s: set<T>, x: T)
    ensures s == {} || s == {x} || s - {x} != {}
  {
    if s - {x} == {} {
      forall y | y in s
        ensures y == x
      {
        assert y !in s - {x};
      }
      if x in s {
        assert s == {x};
      }
    }
  }

  lemma ElementLeft<T>(slots: seq<Slot<T>>, filled: seq<nat>, pool: seq<Bucket<T>>, g: Ledger<T>,
                       b: Bucket<T>, k: KeyPair, x: T)
    requires Consistent(slots, filled, pool, g)
    requires k.0 < |slots| && b in BucketsOf(slots[k.0]) && b in g.entries && g.entries[b].key == k.1
    requires g.entries[b].chain != {x}
    ensures k in g.files && k in Unfile(g.files, k, x)
    ensures Consistent(slots, filled, pool, Departed(g, b, k, x))
  {
    var v, g' := slots[k.0].value, Departed(g, b, k, x);
    assert BucketOk(b, k.0, g);
    SomeLeft(g.files[k], x);
    forall m | 0 <= m < |slots|
      ensures SlotOk(slots[m], m, g')
    {
      RefiledSlot(slots[m], m, v, g, g', b, k);
    }
    RefiledFiles(slots, g, g', b, k);
    RefiledPool(pool, g, g', b, k);
  }

  function Erase<X>(s: seq<X>, i: nat): (r: seq<X>)
    requires i < |s|
  {
    s[..i] + s[i + 1..]
  }

  lemma EraseAt<X>(s: seq<X>, i: nat, j: nat)
    requires i < |s| && j < |s| - 1
    ensures Erase(s, i)[j] == s[if j < i then j else j + 1]
  {
  }

  lemma EraseKeepsOthers<X>(s: seq<X>, i: nat, j: nat)
    requires i < |s| && j < |s| && j != i
    ensures s[j] in Erase(s, i)
  {
    assert Erase(s, i)[if j < i then j else j - 1] == s[j];
  }

  /** A ledger in which b went back to the pool and k has no elements left. */
  ghost predicate Emptied<T>(g: Ledger<T>, g': Ledger<T>, b: Bucket<T>, k: KeyPair) {
    && b in g.entries && g.entries[b].slot == k.0 && g.entries[b].key == k.1 && k in g.files
    && g'.entries == g.entries[b := Entry(0, {}, -1)]
    && g'.files == g.files - {k}
    && g'.peak == g.peak
  }

  /** The last element of a bucket: the bucket leaves its slot's vector, and the slot the index if it was the only one. */
  lemma BucketEmptied<T>(slots: seq<Slot<T>>, filled: seq<nat>, pool: seq<Bucket<T>>, g: Ledger<T>,
                         i: nat, k: KeyPair, x: T, f: nat)
    requires Consistent(slots, filled, pool, g)
    requires k.0 < |slots| && i < |BucketsOf(slots[k.0])|
    requires slots[k.0].value[i] in g.entries && g.entries[slots[k.0].value[i]] == Entry(k.1, {x}, k.0)
    requires |slots[k.0].value| == 1 ==> f < |filled| && filled[f] == k.0
    ensures k in g.files && k !in Unfile(g.files, k, x)
    ensures var v := slots[k.0].value;
            Consistent(slots[k.0 := Some(Erase(v, i))], if |v| == 1 then Erase(filled, f) else filled, pool + [v[i]],
                       Departed(g, v[i], k, x))
  {
    var v := slots[k.0].value;
    var b, g' := v[i], Departed(g, v[i], k, x);
    var slots' := slots[k.0 := Some(Erase(v, i))];
    assert BucketOk(b, k.0, g);
    assert g.files[k] - {x} == {};
    forall m | 0 <= m < |slots'|
      ensures SlotOk(slots'[m], m, g')
    {
      if m == k.0 {
        ErasedSlot(v, i, g, g', k);
      } else {
        OtherSlot(slots[m], m, g, g', b, k);
      }
    }
    ErasedFiles(slots, g, g', i, k);
    ErasedIndex(slots, filled, k.0, i, f);
    EmptiedPool(pool, g, g', b, k);
  }

  lemma OtherSlot<T>(s: Slot<T>, m: nat, g: Ledger<T>, g': Ledger<T>, b: Bucket<T>, k: KeyPair)
    requires SlotOk(s, m, g) && m != k.0 && Emptied(g, g', b, k)
    ensures SlotOk(s, m, g')
  {
    if s.Some? {
      forall i | 0 <= i < |s.value|
        ensures BucketOk(s.value[i], m, g')
        ensures g'.entries[s.value[i]].key == g.entries[s.value[i]].key
      {
        assert BucketOk(s.value[i], m, g);
      }
    }
  }

  lemma ErasedSlot<T>(v: seq<Bucket<T>>, i: nat, g: Ledger<T>, g': Ledger<T>, k: KeyPair)
    requires i < |v| && SlotOk(Some(v), k.0, g) && Emptied(g, g', v[i], k)
    ensures SlotOk(Some(Erase(v, i)), k.0, g')
  {
    var w := Erase(v, i);
    forall j | 0 <= j < |w|
      ensures BucketOk(w[j], k.0, g')
      ensures g'.entries[w[j]].key == g.entries[w[j]].key
    {
      EraseAt(v, i, j);
      assert BucketOk(w[j], k.0, g);
    }
    forall j, l | 0 <= j < l < |w|
      ensures g'.entries[w[j]].key != g'.entries[w[l]].key
    {
      EraseAt(v, i, j);
      EraseAt(v, i, l);
    }
  }

  lemma EmptiedHasKey<T>(s: Slot<T>, j: KeyPair, g: Ledger<T>, g': Ledger<T>, b: Bucket<T>, k: KeyPair)
    requires SlotOk(s, j.0, g) && HasKey(s, j.1, g) && j.0 != k.0 && Emptied(g, g', b, k)
    ensures HasKey(s, j.1, g')
  {
    var l :| 0 <= l < |s.value| && s.value[l] in g.entries && g.entries[s.value[l]].key == j.1;
    assert BucketOk(s.value[l], j.0, g);
  }

  lemma ErasedHasKey<T>(v: seq<Bucket<T>>, i: nat, j: KeyPair, g: Ledger<T>, g': Ledger<T>, k: KeyPair)
    requires i < |v| && SlotOk(Some(v), j.0, g) && HasKey(Some(v), j.1, g)
    requires j != k && j.0 == k.0 && Emptied(g, g', v[i], k)
    ensures HasKey(Some(Erase(v, i)), j.1, g')
  {
    var l :| 0 <= l < |v| && v[l] in g.entries && g.entries[v[l]].key == j.1;
    assert BucketOk(v[l], j.0, g) && l != i;
    EraseKeepsOthers(v, i, l);
    assert v[l] != v[i];
  }

  lemma ErasedFiles<T>(slots: seq<Slot<T>>, g: Ledger<T>, g': Ledger<T>, i: nat, k: KeyPair)
    requires FilesOk(slots, g) && k.0 < |slots| && i < |BucketsOf(slots[k.0])|
    requires forall m :: 0 <= m < |slots| ==> SlotOk(slots[m], m, g)
    requires Emptied(g, g', slots[k.0].value[i], k)
    ensures FilesOk(slots[k.0 := Some(Erase(slots[k.0].value, i))], g')
  {
    var v := slots[k.0].value;
    var slots' := slots[k.0 := Some(Erase(v, i))];
    forall j | j in g'.files
      ensures j.0 < |slots'| && HasKey(slots'[j.0], j.1, g')
    {
      if j.0 == k.0 {
        ErasedHasKey(v, i, j, g, g', k);
      } else {
        EmptiedHasKey(slots[j.0], j, g, g', v[i], k);
      }
    }
  }

  lemma ErasedIndex<T>(slots: seq<Slot<T>>, filled: seq<nat>, m: nat, i: nat, f: nat)
    requires IndexOk(slots, filled) && m < |slots| && i < |BucketsOf(slots[m])|
    requires |slots[m].value| == 1 ==> f < |filled| && filled[f] == m
    ensures IndexOk(slots[m := Some(Erase(slots[m].value, i))],
                    if |slots[m].value| == 1 then Erase(filled, f) else filled)
  {
    var v := slots[m].value;
    var slots' := slots[m := Some(Erase(v, i))];
    assert forall n: nat :: InUse(slots', n) <==> InUse(slots, n) && (n == m ==> |v| > 1);
    if |v| == 1 {
      var rest := Erase(filled, f);
      forall j | 0 <= j < |rest|
        ensures rest[j] == filled[if j < f then j else j + 1]
      {
        EraseAt(filled, f, j);
      }
      forall n: nat | n in filled && n != m
        ensures n in rest
      {
        var j :| 0 <= j < |filled| && filled[j] == n;
        EraseKeepsOthers(filled, f, j);
      }
    }
  }

  lemma EmptiedPool<T>(pool: seq<Bucket<T>>, g: Ledger<T>, g': Ledger<T>, b: Bucket<T>, k: KeyPair)
    requires PoolOk(pool, g) && CountOk(pool, g) && Emptied(g, g', b, k)
    ensures PoolOk(pool + [b], g') && CountOk(pool + [b], g')
  {
    MapPut(g.entries, b, g'.entries[b]);
    assert g'.files.Keys == g.files.Keys - {k};
    assert |g'.files| == |g'.files.Keys| && |g.files| == |g.files.Keys|;
  }

  // ----- Counting and freeing -----

  /** The sizes of the vectors of the first i indexed slots. */
  function SizesUpTo<T>(slots: seq<Slot<T>>, filled: seq<nat>, i: nat): (c: nat)
    requires i <= |filled| && forall j :: 0 <= j < |filled| ==> filled[j] < |slots|
  {
    if i == 0 then 0 else SizesUpTo(slots, filled, i - 1) + |BucketsOf(slots[filled[i - 1]])|
  }

  ghost function KeysIn<T>(g: Ledger<T>, ms: seq<nat>): (ks: set<KeyPair>) {
    set k | k in g.files && k.0 in ms
  }

  ghost function KeysAt<T>(g: Ledger<T>, m: nat): (ks: set<KeyPair>) {
    set k | k in g.files && k.0 == m
  }

  /** The first j buckets of a slot have j key pairs. */
  lemma {:induction false} KeysOfVector<T>(v: seq<Bucket<T>>, j: nat, m: nat, g: Ledger<T>) returns (ks: set<KeyPair>)
    requires SlotOk(Some(v), m, g) && j <= |v|
    ensures |ks| == j && forall k :: k in ks <==> exists i :: 0 <= i < j && k == (m, g.entries[v[i]].key)
  {
    if j == 0 {
      ks := {};
    } else {
      var before := KeysOfVector(v, j - 1, m, g);
      var last := (m, g.entries[v[j - 1]].key);
      assert BucketOk(v[j - 1], m, g);
      assert last !in before;
      ks := before + {last};
    }
  }

  lemma KeysOfSlot<T>(slots: seq<Slot<T>>, g: Ledger<T>, m: nat)
    requires m < |slots| && SlotOk(slots[m], m, g) && FilesOk(slots, g)
    ensures |KeysAt(g, m)| == |BucketsOf(slots[m])|
  {
    var v := BucketsOf(slots[m]);
    var ks := KeysOfVector(v, |v|, m, g);
    forall k | k in ks
      ensures k in KeysAt(g, m)
    {
      var i :| 0 <= i < |v| && k == (m, g.entries[v[i]].key);
      assert BucketOk(v[i], m, g);
    }
    forall k | k in KeysAt(g, m)
      ensures k in ks
    {
      assert HasKey(slots[m], k.1, g);
    }
    assert ks == KeysAt(g, m);
  }

  lemma {:induction false} SizesCountKeys<T>(slots: seq<Slot<T>>, filled: seq<nat>, g: Ledger<T>, i: nat)
    requires IndexOk(slots, filled) && FilesOk(slots, g) && i <= |filled|
    requires forall m :: 0 <= m < |slots| ==> SlotOk(slots[m], m, g)
    requires forall j :: 0 <= j < |filled| ==> filled[j] < |slots|
    ensures SizesUpTo(slots, filled, i) == |KeysIn(g, filled[..i])|
  {
    hide IndexOk, SlotOk, FilesOk, KeysIn, KeysAt;
    SlotsListedOnce(slots, filled);
    if i == 0 {
      NoKeysIn(g, filled);
    } else {
      var m := filled[i - 1];
      SizesCountKeys(slots, filled, g, i - 1);
      KeysOfSlot(slots, g, m);
      KeysAppended(g, filled, i - 1);
    }
  }

  lemma SlotsListedOnce<T>(slots: seq<Slot<T>>, filled: seq<nat>)
    requires IndexOk(slots, filled)
    ensures forall a, b :: 0 <= a < b < |filled| ==> filled[a] != filled[b]
  {
  }

  lemma NoKeysIn<T>(g: Ledger<T>, ms: seq<nat>)
    ensures KeysIn(g, ms[..0]) == {}
  {
  }

  lemma KeysAppended<T>(g: Ledger<T>, filled: seq<nat>, i: nat)
    requires i < |filled| && forall a, b :: 0 <= a < b < |filled| ==> filled[a] != filled[b]
    ensures |KeysIn(g, filled[..i + 1])| == |KeysIn(g, filled[..i])| + |KeysAt(g, filled[i])|
  {
    assert filled[..i + 1] == filled[..i] + [filled[i]];
    assert filled[i] !in filled[..i];
    var before, at := KeysIn(g, filled[..i]), KeysAt(g, filled[i]);
    assert KeysIn(g, filled[..i + 1]) == before + at;
    assert before !! at;
  }

  /** The buckets counted along the index are the key pairs that have elements. */
  lemma SizesCountFiles<T>(slots: seq<Slot<T>>, filled: seq<nat>, pool: seq<Bucket<T>>, g: Ledger<T>)
    requires Consistent(slots, filled, pool, g)
    ensures forall j :: 0 <= j < |filled| ==> filled[j] < |slots|
    ensures SizesUpTo(slots, filled, |filled|) == |g.files|
  {
    forall j | 0 <= j < |filled|
      ensures filled[j] < |slots|
    {
      assert InUse(slots, filled[j]);
    }
    SizesCountKeys(slots, filled, g, |filled|);
    assert filled[..|filled|] == filled;
    forall k | k in g.files
      ensures k.0 in filled
    {
      assert HasKey(slots[k.0], k.1, g);
      assert InUse(slots, k.0);
    }
    assert KeysIn(g, filled) == g.files.Keys;
    assert |g.files| == |g.files.Keys|;
  }

  /** The ledger without a freed bucket; the count of the peak starts again. */
  function Freed<T>(g: Ledger<T>, b: Bucket<T>): (r: Ledger<T>) {
    var entries := g.entries - {b};
    Ledger(entries, g.files, |entries|)
  }

  lemma FrontFreed<T>(slots: seq<Slot<T>>, filled: seq<nat>, pool: seq<Bucket<T>>, g: Ledger<T>)
    requires Consistent(slots, filled, pool, g) && |pool| > 0
    ensures pool[0] in g.entries && Consistent(slots, filled, pool[1..], Freed(g, pool[0]))
  {
    var b := pool[0];
    var g' := Freed(g, b);
    assert g'.entries.Keys == g.entries.Keys - {b};
    assert |g.entries| == |g.entries.Keys| && |g'.entries| == |g'.entries.Keys|;
    forall m | 0 <= m < |slots|
      ensures SlotOk(slots[m], m, g')
    {
      UnpooledSlot(slots[m], m, g, b);
    }
    forall k | k in g'.files
      ensures k.0 < |slots| && HasKey(slots[k.0], k.1, g')
    {
      UnpooledHasKey(slots[k.0], k, g, b);
    }
  }

  lemma UnpooledSlot<T>(s: Slot<T>, m: nat, g: Ledger<T>, b: Bucket<T>)
    requires SlotOk(s, m, g) && b in g.entries && g.entries[b].slot == -1
    ensures SlotOk(s, m, Freed(g, b))
  {
    if s.Some? {
      forall i | 0 <= i < |s.value|
        ensures BucketOk(s.value[i], m, Freed(g, b))
      {
        assert BucketOk(s.value[i], m, g);
      }
    }
  }

  lemma UnpooledHasKey<T>(s: Slot<T>, k: KeyPair, g: Ledger<T>, b: Bucket<T>)
    requires SlotOk(s, k.0, g) && HasKey(s, k.1, g) && b in g.entries && g.entries[b].slot == -1
    ensures HasKey(s, k.1, Freed(g, b))
  {
    var l :| 0 <= l < |s.value| && s.value[l] in g.entries && g.entries[s.value[l]].key == k.1;
    assert BucketOk(s.value[l], k.0, g);
  }
}
