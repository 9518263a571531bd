/**
 The dual-key table (src/lsh/LSHUniformHashTable.h): an array of slots, each with a vector of buckets told apart by
 their control keys, an index of the slots in use, and a queue of emptied buckets kept for reuse.
 */
module HashTable {
  import opened Wrappers
  import opened Buckets
  import opened Filing
  import opened Index

  class LSHUniformHashTable<T(==)> {
    const table: array<Slot<T>>
    var filled: seq<nat>
    var pool: seq<Bucket<T>>

    /** Every bucket allocated and not freed, the abstract contents, and the most buckets ever in use at once. */
    ghost var ledger: Ledger<T>

    /** The ledger tells what every bucket holds. */
    ghost predicate Recorded()
      reads this, ledger.entries.Keys
    {
      forall b :: b in ledger.entries ==> b.key == ledger.entries[b].key && b.chain == ledger.entries[b].chain
    }

    ghost predicate Valid()
      reads this, table, ledger.entries.Keys
    {
      Recorded() && Consistent(table[..], filled, pool, ledger)
    }

    /** The elements filed under each key pair. */
    ghost function FilesNow(): (m: Files<T>)
      reads this
    {
      ledger.files
    }

    constructor (uhsize: nat)
      ensures Valid() && fresh(table) && ledger.entries == map[]
      ensures FilesNow() == map[] && table.Length == uhsize && ledger.peak == 0
    {
      table := new Slot<T>[uhsize](_ => None);
      filled, pool := [], [];
      ledger := Ledger(map[], map[], 0);
    }

    /** find : the position of the bucket with the control key, or -1. */
    method Find(ckey: nat, v: seq<Bucket<T>>) returns (r: int)
      ensures -1 <= r < |v|
      ensures r >= 0 ==> v[r].key == ckey && forall i :: 0 <= i < r ==> v[i].key != ckey
      ensures r == -1 ==> forall i :: 0 <= i < |v| ==> v[i].key != ckey
    {
      var i := 0;
      while i < |v|
        invariant 0 <= i <= |v|
        invariant forall j :: 0 <= j < i ==> v[j].key != ckey
      {
        if v[i].key == ckey {
          return i;
        }
        i := i + 1;
      }
      return -1;
    }

    /** What find tells about the files. */
    lemma FoundOrNot(m: nat, c: nat, r: int)
      requires Valid() && m < table.Length
      requires -1 <= r < |BucketsOf(table[m])|
      requires r >= 0 ==> BucketsOf(table[m])[r].key == c
      requires r == -1 ==> forall i :: 0 <= i < |BucketsOf(table[m])| ==> BucketsOf(table[m])[i].key != c
      ensures r >= 0 <==> (m, c) in FilesNow()
      ensures r >= 0 ==> var b := BucketsOf(table[m])[r];
                         b in ledger.entries && ledger.entries[b] == Entry(c, FilesNow()[(m, c)], m)
      ensures r >= 0 ==> FilesNow()[(m, c)] != {}
    {
      assert table[..][m] == table[m];
      KeyFound(table[..], ledger, (m, c));
      var v := BucketsOf(table[m]);
      forall i | 0 <= i < |v|
        ensures BucketOk(v[i], m, ledger)
      {
      }
    }

    lemma PoolFront()
      requires Valid() && |pool| > 0
      ensures pool[0] in ledger.entries && pool[0].chain == {}
    {
    }

    /** getNextAllocatedBucket, filled with its first element, or createBucket when the pool is empty. */
    method NextBucket(mkey: nat, ckey: nat, te: T) returns (b: Bucket<T>)
      requires Recorded() && (mkey, ckey) !in FilesNow()
      requires |pool| > 0 ==> pool[0] in ledger.entries && pool[0].chain == {}
      modifies this`pool, this`ledger, ledger.entries.Keys
      ensures Recorded() && Taken(b, old(pool), pool, old(ledger))
      ensures ledger == Entered(old(ledger), b, (mkey, ckey), te)
      ensures fresh(ledger.entries.Keys - old(ledger.entries.Keys))
    {
      if |pool| == 0 {
        b := new Bucket(ckey, te);
      } else {
        b := pool[0];
        pool := pool[1..];
        b.SetKey(ckey);
        b.Add(te);
      }
      ledger := Entered(ledger, b, (mkey, ckey), te);
    }

    /** A bucket for the first element of a key pair at the end of its slot; a slot that had none enters the index. */
    method AppendBucket(mkey: nat, ckey: nat, te: T) returns (ghost b: Bucket<T>)
      requires Valid() && mkey < table.Length && (mkey, ckey) !in FilesNow()
      modifies this, table, ledger.entries.Keys
      ensures Valid() && fresh(ledger.entries.Keys - old(ledger.entries.Keys))
      ensures ledger == Entered(old(ledger), b, (mkey, ckey), te)
      ensures OneMoreUsed(old(table[..]), table[..], mkey)
    {
      hide Consistent, Entered;
      ghost var slots, was := table[..], ledger;
      if |pool| > 0 {
        PoolFront();
      }
      var vbck := BucketsOf(table[mkey]);
      var bck := NextBucket(mkey, ckey, te);
      b := bck;
      BucketAppended(slots, filled, old(pool), was, bck, pool, (mkey, ckey), te);
      if |vbck| == 0 {
        filled := filled + [mkey];
      }
      table[mkey] := Some(vbck + [bck]);
      assert table[..] == slots[mkey := Some(vbck + [bck])];
    }

    /** add for one key pair: 3 for a slot never used, 2 for a new bucket, 1 for a bucket already there. */
    method AddAt(mkey: nat, ckey: nat, te: T) returns (r: nat)
      requires Valid() && mkey < table.Length
      modifies this, table, ledger.entries.Keys
      ensures Valid() && fresh(ledger.entries.Keys - old(ledger.entries.Keys))
      ensures FilesNow() == File(old(FilesNow()), (mkey, ckey), te)
      ensures ledger.peak == if |FilesNow()| > old(ledger.peak) then |FilesNow()| else old(ledger.peak)
      ensures r == if old(table[mkey]).None? then 3 else if (mkey, ckey) !in old(FilesNow()) then 2 else 1
      ensures OneMoreUsed(old(table[..]), table[..], mkey)
    {
      hide Consistent, OneMoreUsed, File, Under;
      if table[mkey].None? {
        FoundOrNot(mkey, ckey, -1);
        ghost var _ := AppendBucket(mkey, ckey, te);
        return 3;
      }
      var vbck := table[mkey].value;
      var i := Find(ckey, vbck);
      FoundOrNot(mkey, ckey, i);
      if i < 0 {
        ghost var _ := AppendBucket(mkey, ckey, te);
        return 2;
      }
      NoMoreUsed(table[..], mkey);
      JoinBucket(mkey, ckey, te, i);
      return 1;
    }

    method JoinBucket(mkey: nat, ckey: nat, te: T, i: nat)
      requires Valid() && mkey < table.Length && i < |BucketsOf(table[mkey])|
      requires table[mkey].value[i].key == ckey && (mkey, ckey) in FilesNow()
      requires table[mkey].value[i] in ledger.entries
      requires ledger.entries[table[mkey].value[i]] == Entry(ckey, FilesNow()[(mkey, ckey)], mkey)
      modifies this`ledger, table[mkey].value[i]
      ensures Valid() && ledger.entries.Keys == old(ledger.entries.Keys)
      ensures FilesNow() == File(old(FilesNow()), (mkey, ckey), te)
      ensures ledger.peak == if |FilesNow()| > old(ledger.peak) then |FilesNow()| else old(ledger.peak)
    {
      hide Consistent;
      ghost var was := ledger;
      var bck := table[mkey].value[i];
      assert table[..][mkey] == table[mkey];
      ElementJoined(table[..], filled, pool, was, bck, (mkey, ckey), te);
      bck.Add(te);
      ledger := Entered(was, bck, (mkey, ckey), te);
    }

    /** removeIndex : the first entry of the index with the key. */
    method RemoveIndex(key: nat) returns (ghost f: nat)
      requires key in filled
      modifies this`filled
      ensures f < |old(filled)| && old(filled)[f] == key && filled == Erase(old(filled), f)
    {
      var i := 0;
      while filled[i] != key
        invariant 0 <= i < |filled| && key in filled[i..]
        decreases |filled| - i
      {
        i := i + 1;
      }
      f := i;
      filled := Erase(filled, i);
    }

    /** An emptied bucket leaves its slot's vector for the pool, and the slot the index if nothing is left in it. */
    method DropBucket(mkey: nat, i: nat, ghost ckey: nat, ghost te: T)
      requires mkey < table.Length && i < |BucketsOf(table[mkey])|
      requires Consistent(table[..], filled, pool, ledger)
      requires var b := table[mkey].value[i];
               && b in ledger.entries && ledger.entries[b] == Entry(ckey, {te}, mkey)
               && b.chain == {}
               && forall o :: o in ledger.entries && o != b ==>
                    o.key == ledger.entries[o].key && o.chain == ledger.entries[o].chain
      modifies this`filled, this`pool, this`ledger, table, table[mkey].value[i]
      ensures Valid() && ledger == Departed(old(ledger), old(table[mkey].value[i]), (mkey, ckey), te)
    {
      hide Consistent;
      ghost var slots, was, index := table[..], ledger, filled;
      var vbck := table[mkey].value;
      var bck := vbck[i];
      assert slots[mkey] == table[mkey];
      ghost var f := 0;
      assert |vbck| == 1 ==> mkey in filled by {
        OnlyBucketIndexed(mkey);
      }
      table[mkey] := Some(Erase(vbck, i));
      bck.Reset();
      pool := pool + [bck];
      if |Erase(vbck, i)| == 0 {
        f := RemoveIndex(mkey);
      }
      BucketEmptied(slots, index, old(pool), was, i, (mkey, ckey), te, f);
      ledger := Departed(was, bck, (mkey, ckey), te);
      assert table[..] == slots[mkey := Some(Erase(vbck, i))];
    }

    lemma OnlyBucketIndexed(mkey: nat)
      requires mkey < table.Length && Consistent(table[..], filled, pool, ledger)
      ensures |BucketsOf(table[mkey])| > 0 ==> mkey in filled
    {
      assert table[..][mkey] == table[mkey];
      assert InUse(table[..], mkey) <==> |BucketsOf(table[mkey])| > 0;
    }

    /** get : the position of a bucket in its slot, or -1 when a key is unknown or beyond the table. */
    method Get(mkey: nat, ckey: nat) returns (i: int)
      requires Valid()
      ensures i >= 0 <==> (mkey, ckey) in FilesNow()
      ensures i >= 0 ==>
                && mkey < table.Length && i < |BucketsOf(table[mkey])|
                && var b := BucketsOf(table[mkey])[i];
                   b in ledger.entries && ledger.entries[b] == Entry(ckey, FilesNow()[(mkey, ckey)], mkey)
      ensures i >= 0 ==> FilesNow()[(mkey, ckey)] != {}
      ensures i >= 0 ==> forall j :: 0 <= j < i ==> BucketsOf(table[mkey])[j].key != ckey
      ensures i >= -1
    {
      hide Consistent;
      if mkey >= table.Length {
        NoFilesBeyond(mkey, ckey);
        return -1;
      }
      if table[mkey].None? {
        FoundOrNot(mkey, ckey, -1);
        return -1;
      }
      i := Find(ckey, table[mkey].value);
      FoundOrNot(mkey, ckey, i);
    }

    lemma NoFilesBeyond(mkey: nat, ckey: nat)
      requires Valid() && mkey >= table.Length
      ensures (mkey, ckey) !in FilesNow()
    {
    }

    /** remove for one key pair: 1 when the element was filed there, else 0. */
    method RemoveAt(mkey: nat, ckey: nat, te: T) returns (r: nat)
      requires Valid()
      modifies this, table, ledger.entries.Keys
      ensures Valid() && ledger.entries.Keys == old(ledger.entries.Keys)
      ensures FilesNow() == Unfile(old(FilesNow()), (mkey, ckey), te)
      ensures ledger.peak == old(ledger.peak)
      ensures r == if te in Under(old(FilesNow()), (mkey, ckey)) then 1 else 0
    {
      hide Consistent;
      var i := Get(mkey, ckey);
      if i < 0 {
        return 0;
      }
      ghost var was := ledger;
      var bck := table[mkey].value[i];
      assert table[..][mkey] == table[mkey];
      r := bck.RemoveElement(te);
      if bck.IsEmpty() {
        SomeLeft(FilesNow()[(mkey, ckey)], te);
        var vit := Find(ckey, table[mkey].value);
        DropBucket(mkey, vit, ckey, te);
      } else {
        ElementLeft(table[..], filled, pool, was, bck, (mkey, ckey), te);
        ledger := Departed(was, bck, (mkey, ckey), te);
      }
    }

    /** countBuckets : the sizes of the vectors along the index. */
    method CountBuckets() returns (c: nat)
      requires Valid()
      ensures c == |FilesNow()|
    {
      hide Consistent;
      SizesCountFiles(table[..], filled, pool, ledger);
      c := 0;
      for i := 0 to |filled|
        invariant c == SizesUpTo(table[..], filled, i)
      {
        assert table[..][filled[i]] == table[filled[i]];
        c := c + |BucketsOf(table[filled[i]])|;
      }
    }

    /** The oldest pooled bucket is deleted. */
    method FreeFront()
      requires Valid() && |pool| > 0
      modifies this`pool, this`ledger
      ensures Valid() && pool == old(pool)[1..] && FilesNow() == old(FilesNow())
      ensures ledger.entries.Keys <= old(ledger.entries.Keys)
    {
      hide Consistent;
      FrontFreed(table[..], filled, pool, ledger);
      ledger := Freed(ledger, pool[0]);
      pool := pool[1..];
    }

    /** freeUnusedAllocatedBuckets */
    method FreeUnusedAllocatedBuckets()
      requires Valid()
      modifies this`pool, this`ledger
      ensures Valid() && pool == [] && FilesNow() == old(FilesNow())
      ensures ledger.entries.Keys <= old(ledger.entries.Keys) && ledger.peak == |FilesNow()|
    {
      hide Consistent;
      while |pool| > 0
        invariant Valid() && FilesNow() == old(FilesNow())
        invariant ledger.entries.Keys <= old(ledger.entries.Keys)
        decreases |pool|
      {
        FreeFront();
      }
      PeakIsCount();
    }

    /** Allocated buckets are those in use and those pooled: as many as were ever in use at once. */
    lemma PeakIsCount()
      requires Valid()
      ensures |ledger.entries| == |FilesNow()| + |pool| == ledger.peak
    {
    }

    // ----- Elements under all their key pairs -----

    /** add : keys are the main and control keys that LcomputeMCKey finds; the result is the mean of the codes, cut down. */
    method Add(te: T, keys: seq<KeyPair>) returns (r: nat)
      requires Valid() && |keys| > 0
      requires forall l :: 0 <= l < |keys| ==> keys[l].0 < table.Length
      modifies this, table, ledger.entries.Keys
      ensures Valid() && fresh(ledger.entries.Keys - old(ledger.entries.Keys))
      ensures FilesNow() == FileAll(old(FilesNow()), keys, te)
      ensures r == CodeSum(old(table[..]), old(FilesNow()), keys, |keys|) / |keys|
    {
      hide Consistent, File, FileAll, CodeAt, CodeSum, OneMoreUsed, UsedBy;
      ghost var slots, before := table[..], FilesNow();
      NoneUsed(slots, before, keys, te);
      var sum := 0;
      for l := 0 to |keys|
        invariant Valid() && fresh(ledger.entries.Keys - old(ledger.entries.Keys))
        invariant FilesNow() == FileAll(before, keys[..l], te)
        invariant UsedBy(slots, table[..], keys, l) && sum == CodeSum(slots, before, keys, l)
      {
        NextKey(slots, before, keys, l, te);
        ghost var was := table[..];
        if table[keys[l].0].None? {
          FoundOrNot(keys[l].0, keys[l].1, -1);
        }
        AddCounts(slots, was, before, keys, l, te);
        var code := AddAt(keys[l].0, keys[l].1, te);
        OneMoreKey(slots, was, table[..], keys, l);
        sum := sum + code;
      }
      assert keys[..|keys|] == keys;
      r := sum / |keys|;
    }

    /**
     remove : 1 when each of the key pairs, taken in turn, still had the element, that is when they are distinct and all
     had it; else 0.
     */
    method Remove(te: T, keys: seq<KeyPair>) returns (r: nat)
      requires Valid() && |keys| > 0
      modifies this, table, ledger.entries.Keys
      ensures Valid() && ledger.entries.Keys == old(ledger.entries.Keys)
      ensures FilesNow() == UnfileAll(old(FilesNow()), keys, te)
      ensures r == if Distinct(keys) && FiledEverywhere(old(FilesNow()), keys, te) then 1 else 0
    {
      hide Consistent, Unfile, Distinct, FiledEverywhere;
      ghost var before := FilesNow();
      NoKeys(before, keys, te);
      var sum := 0;
      for l := 0 to |keys|
        invariant Valid() && ledger.entries.Keys == old(ledger.entries.Keys)
        invariant FilesNow() == UnfileAll(before, keys[..l], te)
        invariant sum <= l && (sum == l <==> Distinct(keys[..l]) && FiledEverywhere(before, keys[..l], te))
      {
        assert keys[..l + 1][..l] == keys[..l];
        RemovalCounts(before, keys, l, te);
        var code := RemoveAt(keys[l].0, keys[l].1, te);
        sum := sum + code;
      }
      assert keys[..|keys|] == keys;
      MeanCode(sum, |keys|);
      r := sum / |keys|;
    }

    /** getL : the buckets of the query's key pairs, those without a bucket left out. */
    method GetL(keys: seq<KeyPair>) returns (r: seq<Bucket<T>>)
      requires Valid()
      ensures |r| == |Hits(FilesNow(), keys)|
      ensures forall i :: 0 <= i < |r| ==> r[i].chain == Hits(FilesNow(), keys)[i]
    {
      r := [];
      for l := 0 to |keys|
        invariant |r| == |Hits(FilesNow(), keys[..l])|
        invariant forall i :: 0 <= i < |r| ==> r[i].chain == Hits(FilesNow(), keys[..l])[i]
      {
        assert keys[..l + 1][..l] == keys[..l];
        var i := Get(keys[l].0, keys[l].1);
        if i >= 0 {
          r := r + [table[keys[l].0].value[i]];
        }
      }
      assert keys[..|keys|] == keys;
    }

    /** getLElts : the union of the buckets found. */
    method GetLElts(keys: seq<KeyPair>) returns (s: set<T>)
      requires Valid()
      ensures s == UnionOf(Hits(FilesNow(), keys))
    {
      var vec := GetL(keys);
      s := Lunion(vec, Hits(FilesNow(), keys));
    }

    /** BucketOperations::Lunion : nothing for no bucket, a copy for one, else the buckets merged one by one. */
    method Lunion(vec: seq<Bucket<T>>, ghost ss: seq<set<T>>) returns (res: set<T>)
      requires |vec| == |ss| && forall i :: 0 <= i < |vec| ==> vec[i].chain == ss[i]
      ensures res == UnionOf(ss)
    {
      res := {};
      if |vec| == 0 {
        return;
      }
      if |vec| == 1 {
        UnionSnoc([], ss[0]);
        assert [] + [ss[0]] == ss;
        return vec[0].chain;
      }
      for i := 0 to |vec|
        invariant res == UnionOf(ss[..i])
      {
        assert ss[..i + 1][..i] == ss[..i];
        res := vec[i].chain + res;
      }
      assert ss[..|ss|] == ss;
    }
  }

  // ----- The result codes of additions -----

  /** Slot m has its vector now, whether or not it had one; the other slots have one as before. */
  ghost predicate OneMoreUsed<T>(slots: seq<Slot<T>>, slots': seq<Slot<T>>, m: nat) {
    |slots'| == |slots| && forall j :: 0 <= j < |slots| ==> (slots'[j].None? <==> slots[j].None? && j != m)
  }

  lemma NoMoreUsed<T>(slots: seq<Slot<T>>, m: nat)
    requires m < |slots| && slots[m].Some?
    ensures OneMoreUsed(slots, slots, m)
  {
  }

  predicate MainKeyIn(keys: seq<KeyPair>, m: nat, n: nat)
    requires n <= |keys|
  {
    exists i :: 0 <= i < n && keys[i].0 == m
  }

  /** Adding under the first n keys gave their slots a vector. */
  ghost predicate UsedBy<T>(slots: seq<Slot<T>>, slots': seq<Slot<T>>, keys: seq<KeyPair>, n: nat)
    requires n <= |keys|
  {
    |slots'| == |slots| && forall j :: 0 <= j < |slots| ==> (slots'[j].None? <==> slots[j].None? && !MainKeyIn(keys, j, n))
  }

  /**
   The code for the l-th key: 1 when its bucket is there, from before or for an earlier key, 3 when its slot was never
   used, also not for an earlier key, 2 otherwise. A slot that was emptied counts as used.
   */
  function CodeAt<T>(slots: seq<Slot<T>>, m: Files<T>, keys: seq<KeyPair>, l: nat): (c: nat)
    requires l < |keys| && keys[l].0 < |slots|
  {
    if keys[l] in m || keys[l] in keys[..l] then 1
    else if slots[keys[l].0].None? && !MainKeyIn(keys, keys[l].0, l) then 3
    else 2
  }

  function CodeSum<T>(slots: seq<Slot<T>>, m: Files<T>, keys: seq<KeyPair>, n: nat): (c: nat)
    requires n <= |keys| && forall l :: 0 <= l < |keys| ==> keys[l].0 < |slots|
  {
    if n == 0 then 0 else CodeSum(slots, m, keys, n - 1) + CodeAt(slots, m, keys, n - 1)
  }

  lemma NoneUsed<T>(slots: seq<Slot<T>>, m: Files<T>, keys: seq<KeyPair>, x: T)
    requires forall l :: 0 <= l < |keys| ==> keys[l].0 < |slots|
    ensures UsedBy(slots, slots, keys, 0) && CodeSum(slots, m, keys, 0) == 0
    ensures FileAll(m, keys[..0], x) == m
  {
  }

  /** The files and the codes for one key more. */
  lemma NextKey<T>(slots: seq<Slot<T>>, m: Files<T>, keys: seq<KeyPair>, l: nat, x: T)
    requires l < |keys| && forall i :: 0 <= i < |keys| ==> keys[i].0 < |slots|
    ensures FileAll(m, keys[..l + 1], x) == File(FileAll(m, keys[..l], x), keys[l], x)
    ensures CodeSum(slots, m, keys, l + 1) == CodeSum(slots, m, keys, l) + CodeAt(slots, m, keys, l)
  {
    assert keys[..l + 1][..l] == keys[..l];
  }

  lemma OneMoreKey<T>(slots: seq<Slot<T>>, was: seq<Slot<T>>, now: seq<Slot<T>>, keys: seq<KeyPair>, l: nat)
    requires l < |keys| && UsedBy(slots, was, keys, l) && OneMoreUsed(was, now, keys[l].0)
    ensures UsedBy(slots, now, keys, l + 1)
  {
    forall j | 0 <= j < |slots|
      ensures MainKeyIn(keys, j, l + 1) <==> MainKeyIn(keys, j, l) || keys[l].0 == j
    {
      if MainKeyIn(keys, j, l) {
        var i :| 0 <= i < l && keys[i].0 == j;
        assert i < l + 1;
      }
    }
  }

  lemma {:induction false} FiledKeys<T>(m: Files<T>, keys: seq<KeyPair>, x: T, k: KeyPair)
    ensures k in FileAll(m, keys, x) <==> k in m || k in keys
  {
    if |keys| > 0 {
      var n := |keys| - 1;
      FiledKeys(m, keys[..n], x, k);
      assert keys == keys[..n] + [keys[n]];
    }
  }

  /** A key whose bucket is filed has a used slot: that is where the bucket is. */
  lemma AddCounts<T>(slots: seq<Slot<T>>, now: seq<Slot<T>>, m: Files<T>, keys: seq<KeyPair>, l: nat, x: T)
    requires l < |keys| && keys[l].0 < |slots| && UsedBy(slots, now, keys, l)
    requires keys[l] in FileAll(m, keys[..l], x) ==> now[keys[l].0].Some?
    ensures CodeAt(slots, m, keys, l)
         == if now[keys[l].0].None? then 3 else if keys[l] !in FileAll(m, keys[..l], x) then 2 else 1
  {
    FiledKeys(m, keys[..l], x, keys[l]);
  }

  predicate Distinct(keys: seq<KeyPair>) {
    forall i, j :: 0 <= i < j < |keys| ==> keys[i] != keys[j]
  }

  predicate FiledEverywhere<T>(m: Files<T>, keys: seq<KeyPair>, x: T) {
    forall k :: k in keys ==> x in Under(m, k)
  }

  lemma MeanCode(sum: nat, n: nat)
    requires n > 0 && sum <= 3 * n
    ensures sum / n <= 3 && (sum >= n <==> sum / n >= 1) && (sum < 2 * n ==> sum / n <= 1)
  {
    var q := sum / n;
    assert q * n <= sum < q * n + n;
    if q >= 4 {
      MulAtLeast(q, 4, n);
    }
    if q >= 2 {
      MulAtLeast(q, 2, n);
    }
  }

  lemma MulAtLeast(q: nat, c: nat, n: nat)
    requires q >= c
    ensures q * n >= c * n
  {
  }

  lemma NoKeys<T>(m: Files<T>, keys: seq<KeyPair>, x: T)
    ensures Distinct(keys[..0]) && FiledEverywhere(m, keys[..0], x)
  {
  }

  /** Removing under the l-th key finds the element there unless an earlier key was the same or it was never there. */
  lemma RemovalCounts<T>(m: Files<T>, keys: seq<KeyPair>, l: nat, x: T)
    requires l < |keys|
    ensures x in Under(UnfileAll(m, keys[..l], x), keys[l]) <==> x in Under(m, keys[l]) && keys[l] !in keys[..l]
    ensures Distinct(keys[..l + 1]) <==> Distinct(keys[..l]) && keys[l] !in keys[..l]
    ensures FiledEverywhere(m, keys[..l + 1], x) <==> FiledEverywhere(m, keys[..l], x) && x in Under(m, keys[l])
  {
    UnderUnfileAll(m, keys[..l], x, keys[l]);
    assert keys[..l + 1] == keys[..l] + [keys[l]];
  }
}
