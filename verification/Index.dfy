/**
 What the files of the table mean: after any run of additions and removals they are the live elements, each filed under
 its own key pairs, so a lookup is a scan of the live elements for a shared key pair.
 */
module Index {
  import opened Filing

  /** The files after x is added under, or removed from, each of its key pairs in turn. */
  function FileAll<T>(m: Files<T>, keys: seq<KeyPair>, x: T): (r: Files<T>) {
    if |keys| == 0 then m else File(FileAll(m, keys[..|keys| - 1], x), keys[|keys| - 1], x)
  }

  function UnfileAll<T>(m: Files<T>, keys: seq<KeyPair>, x: T): (r: Files<T>) {
    if |keys| == 0 then m else Unfile(UnfileAll(m, keys[..|keys| - 1], x), keys[|keys| - 1], x)
  }

  ghost predicate NoneEmpty<T>(m: Files<T>) {
    forall k :: k in m ==> m[k] != {}
  }

  lemma UnderFile<T>(m: Files<T>, k: KeyPair, x: T, j: KeyPair)
    ensures Under(File(m, k, x), j) == Under(m, j) + if j == k then {x} else {}
  {
  }

  lemma UnderUnfile<T>(m: Files<T>, k: KeyPair, x: T, j: KeyPair)
    ensures Under(Unfile(m, k, x), j) == Under(m, j) - if j == k then {x} else {}
  {
  }

  lemma {:induction false} UnderFileAll<T>(m: Files<T>, keys: seq<KeyPair>, x: T, j: KeyPair)
    ensures Under(FileAll(m, keys, x), j) == Under(m, j) + if j in keys then {x} else {}
    ensures NoneEmpty(m) ==> NoneEmpty(FileAll(m, keys, x))
  {
    if |keys| > 0 {
      var n := |keys| - 1;
      UnderFileAll(m, keys[..n], x, j);
      UnderFile(FileAll(m, keys[..n], x), keys[n], x, j);
      assert keys == keys[..n] + [keys[n]];
    }
  }

  lemma {:induction false} UnderUnfileAll<T>(m: Files<T>, keys: seq<KeyPair>, x: T, j: KeyPair)
    ensures Under(UnfileAll(m, keys, x), j) == Under(m, j) - if j in keys then {x} else {}
    ensures NoneEmpty(m) ==> NoneEmpty(UnfileAll(m, keys, x))
  {
    if |keys| > 0 {
      var n := |keys| - 1;
      UnderUnfileAll(m, keys[..n], x, j);
      UnderUnfile(UnfileAll(m, keys[..n], x), keys[n], x, j);
      assert keys == keys[..n] + [keys[n]];
    }
  }

  /** The files are the live elements under their key pairs. */
  ghost predicate Indexes<T>(m: Files<T>, live: set<T>, keysOf: T -> seq<KeyPair>) {
    && NoneEmpty(m)
    && forall k: KeyPair :: Under(m, k) == FiledUnderKey(live, k, keysOf)
  }

  ghost function FiledUnderKey<T>(live: set<T>, k: KeyPair, keysOf: T -> seq<KeyPair>): (s: set<T>) {
    set x | x in live && k in keysOf(x)
  }

  /** Files without empty entries are determined by what they hold under each key pair. */
  lemma FilesDetermined<T>(m: Files<T>, m': Files<T>)
    requires NoneEmpty(m) && NoneEmpty(m')
    requires forall k: KeyPair :: Under(m, k) == Under(m', k)
    ensures m == m'
  {
    forall k: KeyPair
      ensures k in m <==> k in m'
      ensures k in m ==> m[k] == m'[k]
    {
      assert Under(m, k) == Under(m', k);
    }
  }

  /** The live elements determine the files: nothing of the history remains in them. */
  lemma IndexIsCanonical<T>(m: Files<T>, m': Files<T>, live: set<T>, keysOf: T -> seq<KeyPair>)
    requires Indexes(m, live, keysOf) && Indexes(m', live, keysOf)
    ensures m == m'
  {
    forall k: KeyPair
      ensures Under(m, k) == Under(m', k)
    {
      assert Under(m, k) == FiledUnderKey(live, k, keysOf);
    }
    FilesDetermined(m, m');
  }

  lemma AddIndexes<T>(m: Files<T>, live: set<T>, keysOf: T -> seq<KeyPair>, x: T)
    requires Indexes(m, live, keysOf)
    ensures Indexes(FileAll(m, keysOf(x), x), live + {x}, keysOf)
  {
    UnderFileAll(m, keysOf(x), x, (0, 0));
    forall k: KeyPair
      ensures Under(FileAll(m, keysOf(x), x), k) == FiledUnderKey(live + {x}, k, keysOf)
    {
      UnderFileAll(m, keysOf(x), x, k);
      assert Under(m, k) == FiledUnderKey(live, k, keysOf);
    }
  }

  lemma RemoveIndexes<T>(m: Files<T>, live: set<T>, keysOf: T -> seq<KeyPair>, x: T)
    requires Indexes(m, live, keysOf)
    ensures Indexes(UnfileAll(m, keysOf(x), x), live - {x}, keysOf)
  {
    UnderUnfileAll(m, keysOf(x), x, (0, 0));
    forall k: KeyPair
      ensures Under(UnfileAll(m, keysOf(x), x), k) == FiledUnderKey(live - {x}, k, keysOf)
    {
      UnderUnfileAll(m, keysOf(x), x, k);
      assert Under(m, k) == FiledUnderKey(live, k, keysOf);
    }
  }

  // ----- Whole runs -----

  datatype Op<T> = Add(x: T) | Remove(x: T)

  /** The elements added and not removed since. */
  function Live<T>(ops: seq<Op<T>>): (live: set<T>) {
    if |ops| == 0 then {}
    else
      var before := Live(ops[..|ops| - 1]);
      match ops[|ops| - 1]
      case Add(x) => before + {x}
      case Remove(x) => before - {x}
  }

  /** The files after a run from an empty table. */
  function FilesAfter<T>(ops: seq<Op<T>>, keysOf: T -> seq<KeyPair>): (m: Files<T>) {
    if |ops| == 0 then map[]
    else
      var before := FilesAfter(ops[..|ops| - 1], keysOf);
      match ops[|ops| - 1]
      case Add(x) => FileAll(before, keysOf(x), x)
      case Remove(x) => UnfileAll(before, keysOf(x), x)
  }

  /** Every run, whatever it added twice or removed in vain, leaves exactly the live elements filed. */
  lemma {:induction false} RunIndexes<T>(ops: seq<Op<T>>, keysOf: T -> seq<KeyPair>)
    ensures Indexes(FilesAfter(ops, keysOf), Live(ops), keysOf)
  {
    if |ops| > 0 {
      var n := |ops| - 1;
      RunIndexes(ops[..n], keysOf);
      match ops[n]
      case Add(x) => AddIndexes(FilesAfter(ops[..n], keysOf), Live(ops[..n]), keysOf, x);
      case Remove(x) => RemoveIndexes(FilesAfter(ops[..n], keysOf), Live(ops[..n]), keysOf, x);
    }
  }

  /** Adding an element that is not live and removing it again leaves the files as they were. */
  lemma AddRemoveRestores<T>(m: Files<T>, live: set<T>, keysOf: T -> seq<KeyPair>, x: T)
    requires Indexes(m, live, keysOf) && x !in live
    ensures UnfileAll(FileAll(m, keysOf(x), x), keysOf(x), x) == m
  {
    AddIndexes(m, live, keysOf, x);
    RemoveIndexes(FileAll(m, keysOf(x), x), live + {x}, keysOf, x);
    assert live + {x} - {x} == live;
    IndexIsCanonical(UnfileAll(FileAll(m, keysOf(x), x), keysOf(x), x), m, live, keysOf);
  }

  // ----- Lookups -----

  /** The non-empty files under the key pairs of a query, in order. */
  function Hits<T>(m: Files<T>, keys: seq<KeyPair>): (r: seq<set<T>>) {
    if |keys| == 0 then []
    else
      var k := keys[|keys| - 1];
      Hits(m, keys[..|keys| - 1]) + if k in m then [m[k]] else []
  }

  function UnionOf<T>(ss: seq<set<T>>): (s: set<T>) {
    if |ss| == 0 then {} else UnionOf(ss[..|ss| - 1]) + ss[|ss| - 1]
  }

  lemma UnionSnoc<T>(ss: seq<set<T>>, s: set<T>)
    ensures UnionOf(ss + [s]) == UnionOf(ss) + s
  {
    assert (ss + [s])[..|ss|] == ss;
  }

  lemma {:induction false} UnionOfHits<T>(m: Files<T>, keys: seq<KeyPair>, x: T)
    ensures x in UnionOf(Hits(m, keys)) <==> exists k :: k in keys && x in Under(m, k)
  {
    if |keys| > 0 {
      var n := |keys| - 1;
      UnionOfHits(m, keys[..n], x);
      assert keys == keys[..n] + [keys[n]];
      if keys[n] in m {
        UnionSnoc(Hits(m, keys[..n]), m[keys[n]]);
      } else {
        assert Hits(m, keys) == Hits(m, keys[..n]);
      }
      assert x in UnionOf(Hits(m, keys)) <==> x in UnionOf(Hits(m, keys[..n])) || x in Under(m, keys[n]);
    }
  }

  predicate ShareKey(a: seq<KeyPair>, b: seq<KeyPair>) {
    exists k :: k in a && k in b
  }

  /** The live elements that share a key pair with the query. */
  ghost function Scan<T>(live: set<T>, keys: seq<KeyPair>, keysOf: T -> seq<KeyPair>): (s: set<T>) {
    set x | x in live && ShareKey(keysOf(x), keys)
  }

  /** A lookup returns the live elements that share a key pair with the query, as a linear scan would. */
  lemma LookupIsScan<T>(m: Files<T>, live: set<T>, keysOf: T -> seq<KeyPair>, keys: seq<KeyPair>)
    requires Indexes(m, live, keysOf)
    ensures UnionOf(Hits(m, keys)) == Scan(live, keys, keysOf)
  {
    var found, scan := UnionOf(Hits(m, keys)), Scan(live, keys, keysOf);
    forall x | x in found
      ensures x in scan
    {
      LookupOf(m, live, keysOf, keys, x);
    }
    forall x | x in scan
      ensures x in found
    {
      LookupOf(m, live, keysOf, keys, x);
    }
  }

  lemma LookupOf<T>(m: Files<T>, live: set<T>, keysOf: T -> seq<KeyPair>, keys: seq<KeyPair>, x: T)
    requires Indexes(m, live, keysOf)
    ensures x in UnionOf(Hits(m, keys)) <==> x in live && ShareKey(keysOf(x), keys)
  {
    UnionOfHits(m, keys, x);
    forall k | k in keys
      ensures x in Under(m, k) <==> x in live && k in keysOf(x)
    {
      assert Under(m, k) == FiledUnderKey(live, k, keysOf);
    }
  }
}
